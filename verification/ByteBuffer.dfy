/**
 The growable byte buffer, and the stream message that is marshalled into it.
*/
module Bytes {
  import opened Basics

  type Byte = x: int | 0 <= x < 256
  type Uint16 = x: int | 0 <= x < 0x1_0000
  type Uint32 = x: int | 0 <= x < 0x1_0000_0000

  class ByteBuffer {
    var bytes: array<Byte> // no bytes at all stand for the null pointer
    var size: nat
    var start: nat
    var end: nat
    ghost var chosen: nat // the sum of all capacities chosen by Resize

    ghost predicate Valid()
      reads this
    {
      start <= end <= size == bytes.Length
    }

    ghost function Contents(): seq<Byte>
      reads this, bytes
      requires Valid()
    {
      bytes[start..end]
    }

    /** What holds after nothing but writes: the capacities chosen so far are bounded by the present one, and that
        by what was written. */
    ghost predicate OnlyWritten()
      reads this
    {
      start == 0 && chosen <= 4 * size && 2 * size <= 3 * end
    }

    constructor ()
      ensures Valid() && Contents() == [] && OnlyWritten() && fresh(bytes)
    {
      bytes := new Byte[0];
      size, start, end, chosen := 0, 0, 0, 0;
    }

    constructor FromBytes(buf: seq<Byte>)
      ensures Valid() && Contents() == buf && fresh(bytes) && chosen == 0
    {
      bytes := new Byte[|buf|](i requires 0 <= i < |buf| => buf[i]);
      size, start, end, chosen := |buf|, 0, |buf|, 0;
    }

    /** The copy constructor takes as many bytes as `other` ends at, but from where it starts: it reads on into `beyond`,
        whatever is in memory behind the other buffer, and copies the contents if they start at 0 or are empty. */
    constructor Copy(other: ByteBuffer, beyond: seq<Byte>)
      requires other.Valid() && |beyond| >= other.start
      ensures Valid() && fresh(bytes) && start == other.start && end == other.end && size == other.size
      ensures Contents() == (other.bytes[..] + beyond)[other.start + other.start..other.start + other.end]
      ensures other.start == 0 || other.start == other.end ==> Contents() == other.Contents()
      ensures chosen == 0
    {
      bytes := new Byte[other.size];
      size, start, end, chosen := other.size, other.start, other.end, 0;
      new;
      ghost var memory := other.bytes[..] + beyond;
      MemCpy(bytes, 0, (other.bytes[..] + beyond)[start..start + end]);
      SliceOfSlice(memory, start, start + end, start);
      assert bytes[..end] == memory[start..start + end];
      assert bytes[start..end] == bytes[..end][start..];
      SliceOfSlice(memory, 0, other.size, 0);
      assert start == 0 ==> memory[0..end] == other.bytes[0..end];
    }

    /** Big-endian, as `htons` and `htonl` arrange the bytes. */
    method WriteUint16(v: Uint16)
      requires Valid()
      modifies this, bytes
      ensures Valid() && (bytes == old(bytes) || fresh(bytes))
      ensures Contents() == old(Contents()) + BigEndian16(v)
      ensures old(OnlyWritten()) ==> OnlyWritten()
    {
      WriteBytes(BigEndian16(v));
    }

    method WriteUint32(v: Uint32)
      requires Valid()
      modifies this, bytes
      ensures Valid() && (bytes == old(bytes) || fresh(bytes))
      ensures Contents() == old(Contents()) + BigEndian32(v)
      ensures old(OnlyWritten()) ==> OnlyWritten()
    {
      WriteBytes(BigEndian32(v));
    }

    /** Appends, whether the bytes fit, the buffer has to grow, or reclaiming the space before `start` is enough. */
    method WriteBytes(buf: seq<Byte>)
      requires Valid()
      modifies this, bytes
      ensures Valid() && (bytes == old(bytes) || fresh(bytes))
      ensures Contents() == old(Contents()) + buf
      ensures var n := |old(Contents())| + |buf|;
              if n <= old(size) - old(start) then size == old(size) && start == old(start)
              else size == (if n > old(size) then Max(n, 3 * old(size) / 2) else n) && start == 0
      ensures old(OnlyWritten()) ==> OnlyWritten()
    {
      var n := end - start + |buf|;
      if n > size - start {
        Resize(n);
      }
      Append(buf);
    }

    /** The end of `write_bytes`, once there is room. */
    method Append(buf: seq<Byte>)
      requires Valid() && end + |buf| <= size
      modifies this`end, bytes
      ensures Valid() && end == old(end) + |buf| && Contents() == old(Contents()) + buf
    {
      ghost var before := bytes[..end];
      MemCpy(bytes, end, buf);
      Appended(bytes[..], before, buf, start);
      end := end + |buf|;
    }

    /** Moves the start, forward past bytes or back to bytes before it; with a length between `end` and the allocated
        size it leaves the buffer invalid. */
    method Seek(len: nat)
      requires Valid()
      modifies this`start
      ensures start == if len < size then len else old(start)
      ensures Valid() <==> len <= end || size <= len
      ensures Valid() && old(start) <= len < size ==> Contents() == old(Contents())[len - old(start)..]
      ensures Valid() && len <= old(start) && len < size ==> Contents() == bytes[len..old(start)] + old(Contents())
    {
      if len < size {
        start := len;
      }
    }

    /** Gives the buffer a capacity of `len`, or half as much again as it had if it grows by less than that, and
        keeps what fits. */
    method Resize(len: nat)
      requires Valid()
      modifies this
      ensures Valid() && fresh(bytes) && start == 0
      ensures size == (if len > old(size) then Max(len, 3 * old(size) / 2) else len)
      ensures Contents() == old(Contents())[..Min(|old(Contents())|, size)]
      ensures chosen == old(chosen) + size
    {
      var capacity := if len > size then Max(len, 3 * size / 2) else len;
      var newLen := Min(end - start, capacity);
      var newBytes := new Byte[capacity];
      MemCpy(newBytes, 0, bytes[start..start + newLen]);
      SliceOfSlice(bytes[..], start, end, newLen);
      start, end, size := 0, newLen, capacity;
      chosen := chosen + capacity;
      bytes := new Byte[capacity];
      MemCpy(bytes, 0, newBytes[..]);
      assert bytes[..newLen] == newBytes[..][..newLen];
    }

    /** Drops bytes from the front, if there are that many. */
    method Shift(len: nat)
      requires Valid()
      modifies this, bytes
      ensures Valid() && bytes == old(bytes) && size == old(size)
      ensures Contents() == if len > |old(Contents())| then old(Contents()) else old(Contents())[len..]
      ensures len <= |old(Contents())| ==> start == 0
    {
      if len > end - start {
        return;
      }
      ghost var kept := bytes[start + len..end];
      var from := start + len;
      end := end - start - len;
      var i := 0;
      while i < end
        invariant bytes == old(bytes) && size == old(size) && end == |kept|
        invariant 0 <= i <= end && from + end <= bytes.Length && |kept| == end
        invariant bytes[..i] == kept[..i]
        invariant forall j | i <= j < end :: bytes[from + j] == kept[j]
      {
        bytes[i] := bytes[from + i];
        i := i + 1;
      }
      start := 0;
    }

    /** Keeps the first `len` bytes; but a length of 0 resizes the buffer to the space that is left at its end. */
    method Truncate(len: nat)
      requires Valid()
      modifies this
      ensures Valid() && (bytes == old(bytes) || fresh(bytes))
      ensures Contents() ==
              if len == 0 then old(Contents())[..Min(|old(Contents())|, old(size) - old(end))]
              else if len < |old(Contents())| then old(Contents())[..len] else old(Contents())
      ensures if len >= Max(1, |old(Contents())|) then size == old(size) && start == old(start)
              else size == (if len == 0 then old(size) - old(end) else len) && start == 0
    {
      if len == 0 {
        Resize(size - start - (end - start));
      } else if len < end - start {
        Resize(len);
      }
    }

    /** The capacities chosen add up to at most six times the bytes written. */
    lemma LinearCost()
      requires Valid() && OnlyWritten()
      ensures chosen <= 6 * |Contents()|
    {
    }
  }

  /** Whatever memory holds, a copy has the other buffer's contents exactly if these start at 0 or are empty. */
  lemma CopyKeepsContents(start: nat, end: nat)
    requires start <= end
    ensures (forall memory: seq<Byte> ::
               |memory| >= start + end ==> memory[start + start..start + end] == memory[start..end])
            <==> start == 0 || start == end
  {
    if 0 < start < end {
      var memory: seq<Byte> := seq(start + end, i => if i == start then 1 else 0);
      assert memory[start + start..start + end][0] == 0;
      assert memory[start..end][0] == 1;
      assert |memory| >= start + end;
    }
  }

  lemma Appended<T>(s: seq<T>, before: seq<T>, buf: seq<T>, start: nat)
    requires start <= |before| && |before| + |buf| <= |s|
    requires s[..|before|] == before && s[|before|..|before| + |buf|] == buf
    ensures s[start..|before| + |buf|] == before[start..] + buf
  {
    assert s[start..|before|] == before[start..];
  }

  lemma SliceOfSlice<T>(s: seq<T>, i: nat, j: nat, n: nat)
    requires i <= j <= |s|
    ensures i + n <= j ==> s[i..j][..n] == s[i..i + n] && s[i..j][n..] == s[i + n..j]
  {
  }

  function Concat(bufs: seq<seq<Byte>>): seq<Byte> {
    if bufs == [] then [] else Concat(bufs[..|bufs| - 1]) + bufs[|bufs| - 1]
  }

  /** A run of writes into a buffer that starts empty: their bytes, in order, at a linear price. */
  method WriteAll(bufs: seq<seq<Byte>>) returns (b: ByteBuffer)
    ensures fresh(b) && b.Valid() && b.Contents() == Concat(bufs)
    ensures b.chosen <= 6 * |Concat(bufs)|
  {
    b := new ByteBuffer();
    for i := 0 to |bufs|
      invariant fresh(b) && fresh(b.bytes) && b.Valid() && b.OnlyWritten() && b.Contents() == Concat(bufs[..i])
    {
      assert bufs[..i + 1][..i] == bufs[..i];
      b.WriteBytes(bufs[i]);
    }
    assert bufs[..|bufs|] == bufs;
    b.LinearCost();
  }

  method MemCpy(a: array<Byte>, at: nat, buf: seq<Byte>)
    requires at + |buf| <= a.Length
    modifies a
    ensures a[..at] == old(a[..at]) && a[at..at + |buf|] == buf && a[at + |buf|..] == old(a[at + |buf|..])
  {
    for i := 0 to |buf|
      invariant a[..at] == old(a[..at]) && a[at..at + i] == buf[..i] && a[at + i..] == old(a[at + i..])
    {
      a[at + i] := buf[i];
    }
  }

  function BigEndian16(v: Uint16): seq<Byte> {
    [v / 0x100, v % 0x100]
  }

  function BigEndian32(v: Uint32): seq<Byte> {
    [v / 0x100_0000, v / 0x1_0000 % 0x100, v / 0x100 % 0x100, v % 0x100]
  }

  // Reading back.

  function Read16(b: seq<Byte>): Uint16
    requires |b| >= 2
  {
    var high: int, low: int := b[0], b[1];
    high * 0x100 + low
  }

  function Read32(b: seq<Byte>): Uint32
    requires |b| >= 4
  {
    var high: int, low: int := Read16(b), Read16(b[2..]);
    high * 0x1_0000 + low
  }

  lemma BigEndianReads(v: Uint16, w: Uint32, rest: seq<Byte>)
    ensures Read16(BigEndian16(v) + rest) == v && (BigEndian16(v) + rest)[2..] == rest
    ensures Read32(BigEndian32(w) + rest) == w && (BigEndian32(w) + rest)[4..] == rest
  {
    var a, b, c: int := w / 0x100, w / 0x1_0000, w / 0x100_0000;
    assert w == a * 0x100 + w % 0x100 && a == b * 0x100 + a % 0x100 && b == c * 0x100 + b % 0x100;
  }
}

module StreamMessages {
  import opened Basics
  import opened Bytes

  /** The fields of `stream_message`, the lengths being fields of their own. */
  datatype Fields = Fields(
    version: Uint16, kind: Uint16, bodyLength: Uint32, transactionId: Uint32,
    urlLength: Uint16, url: seq<Byte>, headerLength: Uint16, headers: seq<Byte>,
    nameLength: Uint16, name: seq<Byte>, pathLength: Uint16, path: seq<Byte>,
    tmpPathLength: Uint16, tmpPath: seq<Byte>)

  /** The record on the wire: four integers, then five strings after their lengths. */
  function Wire(m: Fields): seq<Byte> {
    BigEndian16(m.version) + (BigEndian16(m.kind) + (BigEndian32(m.bodyLength) + (BigEndian32(m.transactionId) +
      Block(m.urlLength, m.url, Block(m.headerLength, m.headers, Block(m.nameLength, m.name,
        Block(m.pathLength, m.path, Block(m.tmpPathLength, m.tmpPath, []))))))))
  }

  function Block(length: Uint16, s: seq<Byte>, rest: seq<Byte>): seq<Byte> {
    BigEndian16(length) + (s + rest)
  }

  class StreamMessage {
    var fields: Fields
    const buffer: ByteBuffer

    constructor (fields: Fields)
      ensures this.fields == fields && fresh(buffer) && fresh(buffer.bytes)
      ensures buffer.Valid() && buffer.Contents() == [] && buffer.OnlyWritten()
    {
      this.fields := fields;
      buffer := new ByteBuffer();
    }

    /** Appends the record to the buffer. */
    method Marshal()
      requires buffer.Valid()
      modifies buffer, buffer.bytes
      ensures buffer.Valid() && (buffer.bytes == old(buffer.bytes) || fresh(buffer.bytes))
      ensures buffer.Contents() == old(buffer.Contents()) + Wire(fields)
      ensures old(buffer.OnlyWritten()) ==> buffer.OnlyWritten()
    {
      hide ByteBuffer.Valid, ByteBuffer.Contents, ByteBuffer.OnlyWritten, BigEndian16, BigEndian32, Wire, Integers, Blocks;
      WriteIntegers();
      WriteBlocks();
      WireParts(fields);
      Regroup(old(buffer.Contents()), Integers(fields), Blocks(fields));
    }

    method WriteIntegers()
      requires buffer.Valid()
      modifies buffer, buffer.bytes
      ensures buffer.Valid() && (buffer.bytes == old(buffer.bytes) || fresh(buffer.bytes))
      ensures buffer.Contents() == old(buffer.Contents()) + Integers(fields)
      ensures old(buffer.OnlyWritten()) ==> buffer.OnlyWritten()
    {
      hide ByteBuffer.Valid, ByteBuffer.Contents, ByteBuffer.OnlyWritten, BigEndian16, BigEndian32;
      var m := fields;
      buffer.WriteUint16(m.version);
      buffer.WriteUint16(m.kind);
      buffer.WriteUint32(m.bodyLength);
      buffer.WriteUint32(m.transactionId);
      IntegersInOrder(old(buffer.Contents()), m);
    }

    method WriteBlocks()
      requires buffer.Valid()
      modifies buffer, buffer.bytes
      ensures buffer.Valid() && (buffer.bytes == old(buffer.bytes) || fresh(buffer.bytes))
      ensures buffer.Contents() == old(buffer.Contents()) + Blocks(fields)
      ensures old(buffer.OnlyWritten()) ==> buffer.OnlyWritten()
    {
      hide ByteBuffer.Valid, ByteBuffer.Contents, ByteBuffer.OnlyWritten, BigEndian16, Block, Blocks;
      var m := fields;
      WriteBlock(m.urlLength, m.url);
      WriteBlock(m.headerLength, m.headers);
      WriteBlock(m.nameLength, m.name);
      WriteBlock(m.pathLength, m.path);
      WriteBlock(m.tmpPathLength, m.tmpPath);
      BlocksInOrder(old(buffer.Contents()), m);
    }

    method WriteBlock(length: Uint16, s: seq<Byte>)
      requires buffer.Valid()
      modifies buffer, buffer.bytes
      ensures buffer.Valid() && (buffer.bytes == old(buffer.bytes) || fresh(buffer.bytes))
      ensures buffer.Contents() == old(buffer.Contents()) + BigEndian16(length) + s
      ensures old(buffer.OnlyWritten()) ==> buffer.OnlyWritten()
    {
      buffer.WriteUint16(length);
      buffer.WriteBytes(s);
    }
  }

  /** The part of the record before the strings. */
  function Integers(m: Fields): seq<Byte> {
    BigEndian16(m.version) + (BigEndian16(m.kind) + (BigEndian32(m.bodyLength) + BigEndian32(m.transactionId)))
  }

  /** The part after the integers. */
  function Blocks(m: Fields): seq<Byte> {
    Block(m.urlLength, m.url, Block(m.headerLength, m.headers, Block(m.nameLength, m.name,
      Block(m.pathLength, m.path, Block(m.tmpPathLength, m.tmpPath, [])))))
  }

  lemma WireParts(m: Fields)
    ensures Wire(m) == Integers(m) + Blocks(m)
  {
  }

  /** Writing one field after the other gives each part. */
  lemma IntegersInOrder(b: seq<Byte>, m: Fields)
    ensures b + BigEndian16(m.version) + BigEndian16(m.kind) + BigEndian32(m.bodyLength) + BigEndian32(m.transactionId)
            == b + Integers(m)
  {
  }

  lemma BlocksInOrder(b: seq<Byte>, m: Fields)
    ensures b + BigEndian16(m.urlLength) + m.url + BigEndian16(m.headerLength) + m.headers
              + BigEndian16(m.nameLength) + m.name + BigEndian16(m.pathLength) + m.path
              + BigEndian16(m.tmpPathLength) + m.tmpPath == b + Blocks(m)
  {
  }

  // The reader's side, and what gets across.

  /** What can be read from a record. */
  datatype Record = Record(
    version: Uint16, kind: Uint16, bodyLength: Uint32, transactionId: Uint32,
    url: seq<Byte>, headers: seq<Byte>, name: seq<Byte>, path: seq<Byte>, tmpPath: seq<Byte>)

  /** A length and that many bytes, and what follows them. */
  function ReadBlock(b: seq<Byte>): (r: Option<(seq<Byte>, seq<Byte>)>)
    ensures r.Some? ==> |r.value.0| < 0x1_0000
  {
    if |b| < 2 || |b| < 2 + Read16(b) then None
    else Some((b[2..2 + Read16(b)], b[2 + Read16(b)..]))
  }

  function ReadBlocks(b: seq<Byte>, n: nat): (r: Option<seq<seq<Byte>>>)
    ensures r.Some? ==> |r.value| == n && forall i | 0 <= i < n :: |r.value[i]| < 0x1_0000
  {
    if n == 0 then if b == [] then Some([]) else None
    else
      var first := ReadBlock(b);
      if first.None? then None
      else
        var rest := ReadBlocks(first.value.1, n - 1);
        if rest.None? then None else Some([first.value.0] + rest.value)
  }

  /** Reads a record that takes up all of `b`. */
  function Decode(b: seq<Byte>): Option<Record> {
    if |b| < 12 then None
    else
      var blocks := ReadBlocks(b[12..], 5);
      if blocks.None? then None
      else
        var s := blocks.value;
        Some(Record(Read16(b), Read16(b[2..]), Read32(b[4..]), Read32(b[8..]), s[0], s[1], s[2], s[3], s[4]))
  }

  /** The fields of a stream entry that go into its message. */
  datatype Entry = Entry(
    version: Uint16, kind: Uint16, transactionId: Uint32,
    url: seq<Byte>, headers: seq<Byte>, name: seq<Byte>, path: seq<Byte>, tmpPath: seq<Byte>)

  /** A length stored in 16 bits. */
  function Length16(s: seq<Byte>): Uint16 {
    |s| % 0x1_0000
  }

  predicate Fits(e: Entry) {
    && |e.url| < 0x1_0000 && |e.headers| < 0x1_0000 && |e.name| < 0x1_0000
    && |e.path| < 0x1_0000 && |e.tmpPath| < 0x1_0000
  }

  function BodyLength(e: Entry): Uint32 {
    var a: int, b: int, c: int, d: int, f: int :=
      Length16(e.url), Length16(e.headers), Length16(e.name), Length16(e.path), Length16(e.tmpPath);
    a + b + c + d + f
  }

  /** The message `stream_entry::marshal` fills in. */
  function MessageOf(e: Entry): Fields {
    Fields(e.version, e.kind, BodyLength(e), e.transactionId,
           Length16(e.url), e.url, Length16(e.headers), e.headers, Length16(e.name), e.name,
           Length16(e.path), e.path, Length16(e.tmpPath), e.tmpPath)
  }

  function RecordOf(e: Entry): Record {
    Record(e.version, e.kind, BodyLength(e), e.transactionId, e.url, e.headers, e.name, e.path, e.tmpPath)
  }

  lemma BlockReads(s: seq<Byte>, rest: seq<Byte>)
    requires |s| < 0x1_0000
    ensures ReadBlock(Block(|s|, s, rest)) == Some((s, rest))
  {
    BigEndianReads(|s|, 0, s + rest);
    var b := Block(|s|, s, rest);
    assert b[2..] == s + rest;
    assert b[2..2 + |s|] == b[2..][..|s|] == s && b[2 + |s|..] == b[2..][|s|..] == rest;
  }

  lemma BlocksRead(n: nat, s: seq<Byte>, rest: seq<Byte>, blocks: seq<seq<Byte>>)
    requires |s| < 0x1_0000 && ReadBlocks(rest, n) == Some(blocks)
    ensures ReadBlocks(Block(|s|, s, rest), n + 1) == Some([s] + blocks)
  {
    BlockReads(s, rest);
  }

  lemma AllBlocksRead(e: Entry)
    requires Fits(e)
    ensures ReadBlocks(Blocks(MessageOf(e)), 5) == Some([e.url, e.headers, e.name, e.path, e.tmpPath])
  {
    hide Block, ReadBlock, BodyLength;
    var b5 := Block(|e.tmpPath|, e.tmpPath, []);
    var b4 := Block(|e.path|, e.path, b5);
    var b3 := Block(|e.name|, e.name, b4);
    var b2 := Block(|e.headers|, e.headers, b3);
    BlocksRead(0, e.tmpPath, [], []);
    BlocksRead(1, e.path, b5, [e.tmpPath] + []);
    BlocksRead(2, e.name, b4, [e.path] + ([e.tmpPath] + []));
    BlocksRead(3, e.headers, b3, [e.name] + ([e.path] + ([e.tmpPath] + [])));
    BlocksRead(4, e.url, b2, [e.headers] + ([e.name] + ([e.path] + ([e.tmpPath] + []))));
    assert [e.url] + ([e.headers] + ([e.name] + ([e.path] + ([e.tmpPath] + [])))) ==
           [e.url, e.headers, e.name, e.path, e.tmpPath];
  }

  /** The marshalled bytes of an entry are read back as its fields exactly when all its strings are shorter than
      65536 bytes; so no two such entries marshal alike. */
  lemma RoundTrip(e: Entry)
    ensures Decode(Wire(MessageOf(e))) == Some(RecordOf(e)) <==> Fits(e)
  {
    hide Block, Blocks, ReadBlocks, BodyLength, Length16, BigEndian16, BigEndian32;
    if Fits(e) {
      AllBlocksRead(e);
      HeaderReads(MessageOf(e), Blocks(MessageOf(e)));
      WireParts(MessageOf(e));
    }
  }

  lemma NoTwoMarshalAlike(e: Entry, f: Entry)
    requires Fits(e) && Fits(f) && Wire(MessageOf(e)) == Wire(MessageOf(f))
    ensures e == f
  {
    hide Wire, Decode;
    RoundTrip(e);
    RoundTrip(f);
  }

  lemma HeaderReads(m: Fields, blocks: seq<Byte>)
    ensures var b := Integers(m) + blocks;
            && |b| >= 12 && b[12..] == blocks && Read16(b) == m.version && Read16(b[2..]) == m.kind
            && Read32(b[4..]) == m.bodyLength && Read32(b[8..]) == m.transactionId
  {
    var b3 := BigEndian32(m.transactionId) + blocks;
    var b2 := BigEndian32(m.bodyLength) + b3;
    var b1 := BigEndian16(m.kind) + b2;
    var b := BigEndian16(m.version) + b1;
    assert b == Integers(m) + blocks;
    BigEndianReads(m.version, 0, b1);
    BigEndianReads(m.kind, 0, b2);
    BigEndianReads(0, m.bodyLength, b3);
    BigEndianReads(0, m.transactionId, blocks);
    assert b[4..] == b[2..][2..] && b[8..] == b[4..][4..] && b[12..] == b[8..][4..];
  }

  /** The buffer holds 22 bytes besides the strings; the body length counts the strings only, and only so far as
      their lengths fit in 16 bits. */
  lemma SizeLaw(e: Entry)
    ensures |Wire(MessageOf(e))| == 22 + |e.url| + |e.headers| + |e.name| + |e.path| + |e.tmpPath|
    ensures |Wire(MessageOf(e))| == 22 + BodyLength(e) <==> Fits(e)
    ensures (|Wire(MessageOf(e))| - 22 - BodyLength(e)) % 0x1_0000 == 0
  {
    WireParts(MessageOf(e));
    hide Wire, BigEndian16, BigEndian32, Length16;
    IntegersTake(MessageOf(e));
    hide Integers;
    BlockTakes(Length16(e.tmpPath), e.tmpPath, []);
    BlockTakes(Length16(e.path), e.path, Block(Length16(e.tmpPath), e.tmpPath, []));
    LengthsFit(e.url);
    LengthsFit(e.headers);
    LengthsFit(e.name);
    LengthsFit(e.path);
    LengthsFit(e.tmpPath);
  }

  lemma IntegersTake(m: Fields)
    ensures |Integers(m)| == 12
    ensures forall length :: |BigEndian16(length)| == 2
  {
  }

  lemma BlockTakes(length: Uint16, s: seq<Byte>, rest: seq<Byte>)
    ensures |Block(length, s, rest)| == 2 + |s| + |rest|
  {
  }

  lemma LengthsFit(s: seq<Byte>)
    ensures Length16(s) <= |s| && (Length16(s) == |s| <==> |s| < 0x1_0000)
    ensures |s| == 0x1_0000 * (|s| / 0x1_0000) + Length16(s)
  {
  }

  /** A stream's record of itself. */
  class StreamEntry {
    const version: Uint16
    const kind: Uint16
    const transactionId: Uint32
    const urlLength: Uint16
    const url: seq<Byte>
    const headerLength: Uint16
    const headers: seq<Byte>
    const nameLength: Uint16
    const name: seq<Byte>
    const path: seq<Byte>
    const tmpPath: seq<Byte>
    var pathLength: Uint16
    var tmpPathLength: Uint16
    var bodyLength: Uint32

    /** The lengths of the strings that never change were taken when they were set. */
    ghost predicate Valid()
      reads this
    {
      urlLength == Length16(url) && headerLength == Length16(headers) && nameLength == Length16(name)
    }

    function Now(): Entry
      reads this
    {
      Entry(version, kind, transactionId, url, headers, name, path, tmpPath)
    }

    /** Identifiers and the paths made from them are parameters here. */
    constructor (url: seq<Byte>, headers: seq<Byte>, transactionId: Uint32, path: seq<Byte>, tmpPath: seq<Byte>)
      ensures Valid() && Now() == Entry(1, 1, transactionId, url, headers, name, path, tmpPath)
      ensures pathLength == tmpPathLength == bodyLength == 0
      ensures |name| == 19 && forall i | 0 <= i < 19 :: name[i] == "TORRENT STREAM TEST"[i] as int
    {
      version, kind, this.transactionId := 1, 1, transactionId;
      urlLength, this.url := |url| % 0x1_0000, url;
      headerLength, this.headers := |headers| % 0x1_0000, headers;
      nameLength, name := 19, TEST_NAME;
      this.path, this.tmpPath, pathLength, tmpPathLength, bodyLength := path, tmpPath, 0, 0, 0;
    }

    method Marshal() returns (msg: StreamMessage)
      requires Valid()
      modifies this`pathLength, this`tmpPathLength, this`bodyLength
      ensures Valid() && fresh(msg) && msg.fields == MessageOf(Now())
      ensures msg.buffer.Valid() && msg.buffer.Contents() == Wire(MessageOf(Now()))
      ensures msg.buffer.OnlyWritten() && bodyLength == BodyLength(Now())
    {
      pathLength, tmpPathLength := |path| % 0x1_0000, |tmpPath| % 0x1_0000;
      var total: int := urlLength as int + headerLength as int + nameLength as int + pathLength as int + tmpPathLength as int;
      bodyLength := total;
      var fields := Fields(version, kind, bodyLength, transactionId, urlLength, url, headerLength, headers,
                           Length16(name), name, pathLength, path, tmpPathLength, tmpPath);
      msg := new StreamMessage(fields);
      msg.Marshal();
      assert [] + Wire(fields) == Wire(fields);
    }
  }

  /** "TORRENT STREAM TEST" */
  const TEST_NAME: seq<Byte> :=
    [84, 79, 82, 82, 69, 78, 84, 32, 83, 84, 82, 69, 65, 77, 32, 84, 69, 83, 84]
}
