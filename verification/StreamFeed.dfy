/**
 Feeding a stream into a plugin: the data that has arrived is read in pieces that fit a buffer and that the plugin is
 ready for, kept in a temporary file, written to the plugin, or both.
*/
module StreamFeed {
  import opened Basics

  const BUFFER_SIZE: nat := 16384

  const DWORD_LIMIT: nat := 0x1_0000_0000

  type Byte = bv8

  type Int32 = x: int | -0x8000_0000 <= x < 0x8000_0000

  /** A signed count, compared with an unsigned one. */
  function Unsigned(x: Int32): (r: nat)
    ensures r < DWORD_LIMIT && (r == 0 <==> x == 0) && (r - x) % 0x1_0000_0000 == 0
  {
    if x < 0 then x + DWORD_LIMIT else x
  }

  /** How a plugin wants its data; a seek is not supported. */
  datatype StreamType = Normal | AsFileOnly | AsFile | Seek

  /** Which of its entry points a plugin provides. */
  datatype Functions = Functions(newstream: bool, writeready: bool, write: bool, asfile: bool)

  /** One call of the plugin's `write`. */
  datatype Chunk = Chunk(offset: nat, data: seq<Byte>)

  function Joined(chunks: seq<Chunk>): seq<Byte> {
    if chunks == [] then [] else Joined(chunks[..|chunks| - 1]) + chunks[|chunks| - 1].data
  }

  /** Each chunk starts where the ones before it end. */
  ghost predicate AreConsecutive(chunks: seq<Chunk>) {
    forall k :: 0 <= k < |chunks| ==> chunks[k].offset == |Joined(chunks[..k])|
  }

  /** An exchange that delivered `data`: consecutive chunks, none longer than the buffer or than the plugin was ready for. */
  ghost predicate IsExchange(chunks: seq<Chunk>, ready: seq<nat>, data: seq<Byte>) {
    && AreConsecutive(chunks) && Joined(chunks) == data
    && |ready| == |chunks| && forall k :: 0 <= k < |chunks| ==> |chunks[k].data| <= Min(16384, ready[k])
  }

  lemma JoinedGrows(chunks: seq<Chunk>, c: Chunk)
    ensures Joined(chunks + [c]) == Joined(chunks) + c.data
  {
    assert (chunks + [c])[..|chunks|] == chunks;
  }

  lemma ExchangeGrows(chunks: seq<Chunk>, ready: seq<nat>, data: seq<Byte>, c: Chunk, r: nat)
    requires IsExchange(chunks, ready, data) && c.offset == |data| && |c.data| <= Min(16384, r)
    ensures IsExchange(chunks + [c], ready + [r], data + c.data)
  {
    JoinedGrows(chunks, c);
    hide Joined;
    assert (chunks + [c])[..|chunks|] == chunks;
    forall k | 0 <= k < |chunks|
      ensures (chunks + [c])[..k] == chunks[..k]
    {
    }
  }

  /** Every chunk is the piece of the data at its offset, so the plugin may place it there, whatever came before. */
  lemma {:induction false} ChunksAreSlices(chunks: seq<Chunk>, data: seq<Byte>, k: nat)
    requires AreConsecutive(chunks) && Joined(chunks) == data && k < |chunks|
    ensures var c := chunks[k]; c.offset + |c.data| <= |data| && c.data == data[c.offset..c.offset + |c.data|]
    decreases |chunks|
  {
    hide Joined, AreConsecutive;
    var n := |chunks| - 1;
    var front, last := chunks[..n], chunks[n];
    LastChunk(chunks);
    if k < n {
      ChunksAreSlices(front, Joined(front), k);
      SliceOfFront(Joined(front), last.data, chunks[k].offset, chunks[k].offset + |chunks[k].data|);
    } else {
      EndOf(Joined(front), last.data);
    }
  }

  lemma SliceOfFront<T>(s: seq<T>, t: seq<T>, i: nat, j: nat)
    requires i <= j <= |s|
    ensures (s + t)[i..j] == s[i..j]
  {
  }

  lemma EndOf<T>(s: seq<T>, t: seq<T>)
    ensures (s + t)[|s|..|s| + |t|] == t
  {
  }

  lemma SliceGrows<T>(s: seq<T>, pos: nat, n: nat)
    requires pos + n <= |s|
    ensures s[..pos] + s[pos..pos + n] == s[..pos + n]
  {
  }

  lemma LastChunk(chunks: seq<Chunk>)
    requires AreConsecutive(chunks) && chunks != []
    ensures var front, last := chunks[..|chunks| - 1], chunks[|chunks| - 1];
            AreConsecutive(front) && Joined(chunks) == Joined(front) + last.data && last.offset == |Joined(front)|
  {
    var front := chunks[..|chunks| - 1];
    forall j | 0 <= j < |front|
      ensures front[..j] == chunks[..j]
    {
    }
  }

  /** The data of a URL, as far as it has arrived; read number `k` grants at most `granted(k)` bytes. */
  class SourceStream {
    const content: seq<Byte>
    const granted: nat -> nat
    var pos: nat
    var calls: nat

    constructor (content: seq<Byte>, granted: nat -> nat)
      ensures this.content == content && this.granted == granted && pos == calls == 0
    {
      this.content, this.granted := content, granted;
      pos, calls := 0, 0;
    }

    method Read(buffer: array<Byte>, wanted: nat) returns (count: nat)
      requires pos <= |content| && wanted <= buffer.Length
      modifies this, buffer
      ensures count <= wanted && pos == old(pos) + count <= |content|
      ensures buffer[..count] == content[old(pos)..pos]
      ensures count == Min(wanted, Min(granted(old(calls)), |content| - old(pos))) && calls == old(calls) + 1
    {
      count := Min(wanted, Min(granted(calls), |content| - pos));
      for i := 0 to count
        invariant pos == old(pos) && calls == old(calls)
        invariant forall j :: 0 <= j < i ==> buffer[j] == content[pos + j]
        modifies buffer
      {
        buffer[i] := content[pos + i];
      }
      pos, calls := pos + count, calls + 1;
    }
  }

  /** The receiver of a URL's data; asked in round `k` how much it can take, the plugin answers `answers(k)`. */
  class UrlDataCallback {
    const funcs: Functions
    const answers: nat -> Int32
    const source: seq<Byte>
    var dataPos: nat
    var saveToTempFile: bool
    var notifyOnWrite: bool
    var pluginIsAlive: bool
    var tempFile: Option<seq<Byte>>
    // The exchange with the plugin: what it said it could take, and what it was given.
    var ready: seq<nat>
    var written: seq<Chunk>

    constructor (funcs: Functions, answers: nat -> Int32, source: seq<Byte>)
      ensures Valid() && dataPos == 0 && written == [] && tempFile == None && !saveToTempFile && notifyOnWrite && pluginIsAlive
      ensures this.funcs == funcs && this.answers == answers && this.source == source
    {
      this.funcs, this.answers, this.source := funcs, answers, source;
      dataPos, saveToTempFile, notifyOnWrite, pluginIsAlive := 0, false, true, true;
      tempFile, ready, written := None, [], [];
    }

    /** The plugin takes data through `write`. */
    predicate Feeds()
      reads this
    {
      funcs.write && notifyOnWrite
    }

    /**
     The chunks are consecutive, none is longer than the buffer or than what the plugin was ready for, and together they
     are the first `dataPos` bytes of the source, which are also in the temporary file, if one is kept.
    */
    ghost predicate Valid()
      reads this
    {
      && dataPos <= |source|
      && (if Feeds() then IsExchange(written, ready, source[..dataPos]) else written == [])
      && (saveToTempFile ==> Saved() == source[..dataPos])
      && (!saveToTempFile ==> tempFile == None)
    }

    /** The contents of the temporary file, which is not opened before the first write. */
    function Saved(): seq<Byte>
      reads this
    {
      if tempFile.Some? then tempFile.value else []
    }

    /** The data is saved and written as the plugin wants it. */
    predicate ModeIs(stype: StreamType)
      reads this
    {
      (saveToTempFile <==> !stype.Normal?) && (notifyOnWrite <==> !stype.AsFileOnly?)
    }

    /** A new stream: the plugin's answer says how it wants its data. */
    method OnNPPNewStream(stype: StreamType)
      requires Valid() && dataPos == 0 && written == [] && ready == [] && tempFile == None
      modifies this`saveToTempFile, this`notifyOnWrite
      ensures Valid()
      ensures funcs.newstream && !stype.Seek? ==> ModeIs(stype)
      ensures !funcs.newstream || stype.Seek? ==>
                saveToTempFile == old(saveToTempFile) && notifyOnWrite == old(notifyOnWrite)
    {
      if funcs.newstream {
        match stype {
          case Normal => saveToTempFile, notifyOnWrite := false, true;
          case AsFileOnly => notifyOnWrite, saveToTempFile := false, true;
          case AsFile => notifyOnWrite, saveToTempFile := true, true;
          case Seek =>
        }
      }
    }

    /** How much the plugin can take, as an unsigned count; what it is not asked about it can take. */
    method OnNPPWriteReady(result: nat) returns (r: nat)
      requires result < DWORD_LIMIT
      modifies this`ready
      ensures r == (if funcs.writeready && notifyOnWrite then Unsigned(answers(|old(ready)|)) else result)
      ensures ready == old(ready) + [r]
    {
      r := result;
      if funcs.writeready && notifyOnWrite {
        r := Unsigned(answers(|ready|));
      }
      ready := ready + [r];
    }

    /** Keeps a piece in the temporary file and hands it to the plugin, where wanted. */
    method OnNPPWrite(offset: nat, len: nat, buffer: array<Byte>)
      requires len <= buffer.Length
      modifies this`tempFile, this`written
      ensures tempFile == if saveToTempFile then Some(old(Saved()) + buffer[..len]) else old(tempFile)
      ensures written == if Feeds() then old(written) + [Chunk(offset, buffer[..len])] else old(written)
    {
      if saveToTempFile {
        if tempFile.None? {
          tempFile := Some([]);
        }
        tempFile := Some(tempFile.value + buffer[..len]);
      }
      if funcs.write && notifyOnWrite {
        written := written + [Chunk(offset, buffer[..len])];
      }
    }

    /** One round of the loop: it reads as much as is there, fits, the plugin is ready for, and the stream grants, so
        that it moves on unless the plugin is ready for nothing or nothing can be read. */
    method FeedOnce(stream: SourceStream, bData: array<Byte>, dwSize: nat)
      requires Valid() && stream.content == source && stream.pos == dataPos < dwSize <= |source|
      requires dwSize < DWORD_LIMIT && bData.Length == BUFFER_SIZE
      modifies this`dataPos, this`tempFile, this`ready, this`written, stream, bData
      ensures Valid() && stream.pos == dataPos && old(dataPos) <= dataPos <= dwSize
      ensures old(written) <= written && stream.calls == old(stream.calls) + 1
      ensures var fits, k := Min(dwSize - old(dataPos), BUFFER_SIZE), |old(ready)|;
              && ready == old(ready) + [if funcs.writeready && notifyOnWrite then Unsigned(answers(k)) else fits]
              && dataPos == old(dataPos) + Min(Min(fits, ready[k]), stream.granted(old(stream.calls)))
      ensures old(stream.calls) == |old(ready)| ==>
                dataPos == After(stream, notifyOnWrite, dwSize, old(dataPos), |old(ready)|)
    {
      hide IsExchange, Joined, AreConsecutive;
      ghost var before := source[..dataPos];
      var nBytesToRead := dwSize - dataPos;
      if nBytesToRead > BUFFER_SIZE {
        nBytesToRead := BUFFER_SIZE;
      }
      var result := OnNPPWriteReady(nBytesToRead);
      if nBytesToRead > result {
        nBytesToRead := result;
      }
      var nBytesRead := stream.Read(bData, nBytesToRead);
      OnNPPWrite(dataPos, nBytesRead, bData);
      SliceGrows(source, dataPos, nBytesRead);
      if funcs.write && notifyOnWrite {
        ExchangeGrows(old(written), old(ready), before, Chunk(dataPos, bData[..nBytesRead]), result);
      }
      dataPos := dataPos + nBytesRead;
    }

    /** Whether the plugin is told of writes, once a notification that may be the first one has been announced. */
    function Notifies(first: bool, stype: StreamType): bool
      reads this
    {
      if first && funcs.newstream && !stype.Seek? then !stype.AsFileOnly? else notifyOnWrite
    }

    /** Round `k` moves on: the plugin, if it is asked, is ready for something, and something can be read. */
    predicate Moves(stream: SourceStream, notifies: bool, k: nat) {
      (funcs.writeready && notifies ==> answers(k) != 0) && stream.granted(k) > 0
    }

    /** The position after round `k`, from `pos`, with `dwSize` announced. */
    function After(stream: SourceStream, notifies: bool, dwSize: nat, pos: nat, k: nat): (next: nat)
      requires pos <= dwSize
      ensures pos <= next <= dwSize
    {
      var fits := Min(dwSize - pos, 16384);
      pos + Min(Min(fits, if funcs.writeready && notifies then Unsigned(answers(k)) else fits), stream.granted(k))
    }

    /** The position after `n` rounds, the first of which is round `k`. */
    function PositionAfter(stream: SourceStream, notifies: bool, dwSize: nat, pos: nat, k: nat, n: nat): (p: nat)
      requires pos <= dwSize
      ensures pos <= p <= dwSize
      decreases n
    {
      if n == 0 then pos
      else
        var p := PositionAfter(stream, notifies, dwSize, pos, k, n - 1);
        After(stream, notifies, dwSize, p, k + n - 1)
    }

    ghost predicate MovesAfter(stream: SourceStream, notifies: bool, n: nat) {
      exists k :: n <= k && Moves(stream, notifies, k)
    }

    /** As long as the announced size is not reached, a round that moves on is still to come, however long the plugin
        pauses before it. */
    ghost predicate KeepsMoving(stream: SourceStream, notifies: bool, dwSize: nat, pos: nat, k: nat)
      requires pos <= dwSize
    {
      forall n: nat :: PositionAfter(stream, notifies, dwSize, pos, k, n) < dwSize ==> MovesAfter(stream, notifies, k + n)
    }

    /** After `n` rounds, and not before, the announced size is reached. */
    ghost predicate ReachedAfter(stream: SourceStream, notifies: bool, dwSize: nat, pos: nat, k: nat, n: nat)
      requires pos <= dwSize
    {
      && PositionAfter(stream, notifies, dwSize, pos, k, n) == dwSize
      && (n > 0 ==> PositionAfter(stream, notifies, dwSize, pos, k, n - 1) < dwSize)
    }

    lemma {:induction false} RoundsMove(stream: SourceStream, notifies: bool, dwSize: nat, pos: nat, k: nat, m: nat, n: nat)
      requires pos <= dwSize && m <= n
      ensures PositionAfter(stream, notifies, dwSize, pos, k, m) <= PositionAfter(stream, notifies, dwSize, pos, k, n)
      ensures m < n && Moves(stream, notifies, k + n - 1)
              && PositionAfter(stream, notifies, dwSize, pos, k, n - 1) < dwSize ==>
                PositionAfter(stream, notifies, dwSize, pos, k, m) < PositionAfter(stream, notifies, dwSize, pos, k, n)
      decreases n
    {
      if m < n {
        RoundsMove(stream, notifies, dwSize, pos, k, m, n - 1);
      }
    }

    /** If moving rounds keep coming, some number of rounds suffices. */
    lemma {:induction false} SizeIsReached(stream: SourceStream, notifies: bool, dwSize: nat, pos: nat, k: nat, m: nat)
      returns (n: nat)
      requires pos <= dwSize && KeepsMoving(stream, notifies, dwSize, pos, k)
      requires m > 0 ==> PositionAfter(stream, notifies, dwSize, pos, k, m - 1) < dwSize
      ensures ReachedAfter(stream, notifies, dwSize, pos, k, n)
      decreases dwSize - PositionAfter(stream, notifies, dwSize, pos, k, m)
    {
      hide PositionAfter, After, Moves;
      if PositionAfter(stream, notifies, dwSize, pos, k, m) == dwSize {
        n := m;
      } else {
        assert MovesAfter(stream, notifies, k + m);
        var j: nat :| k + m <= j && Moves(stream, notifies, j);
        var last := j - k;
        RoundsMove(stream, notifies, dwSize, pos, k, m, last);
        if PositionAfter(stream, notifies, dwSize, pos, k, last) < dwSize {
          RoundsMove(stream, notifies, dwSize, pos, k, m, last + 1);
          n := SizeIsReached(stream, notifies, dwSize, pos, k, last + 1);
        } else {
          n := FirstReached(stream, notifies, dwSize, pos, k, last);
        }
      }
    }

    lemma {:induction false} FirstReached(stream: SourceStream, notifies: bool, dwSize: nat, pos: nat, k: nat, m: nat)
      returns (n: nat)
      requires pos <= dwSize && PositionAfter(stream, notifies, dwSize, pos, k, m) == dwSize
      ensures n <= m && ReachedAfter(stream, notifies, dwSize, pos, k, n)
      decreases m
    {
      n := m;
      if m > 0 && PositionAfter(stream, notifies, dwSize, pos, k, m - 1) == dwSize {
        n := FirstReached(stream, notifies, dwSize, pos, k, m - 1);
      }
    }

    /** Without a moving round the position stays where it is, for ever. */
    lemma {:induction false} Stalls(stream: SourceStream, notifies: bool, dwSize: nat, pos: nat, k: nat, m: nat, n: nat)
      requires pos <= dwSize && m <= n && !MovesAfter(stream, notifies, k + m)
      ensures PositionAfter(stream, notifies, dwSize, pos, k, n) == PositionAfter(stream, notifies, dwSize, pos, k, m)
      decreases n
    {
      if m < n {
        Stalls(stream, notifies, dwSize, pos, k, m, n - 1);
        assert !Moves(stream, notifies, k + n - 1);
      }
    }

    /** The announced size is reached after some number of rounds exactly when moving rounds keep coming until it is;
        otherwise the loop goes on for ever. */
    lemma ReachesExactly(stream: SourceStream, notifies: bool, dwSize: nat, pos: nat, k: nat)
      requires pos <= dwSize
      ensures (exists n: nat :: ReachedAfter(stream, notifies, dwSize, pos, k, n)) <==> KeepsMoving(stream, notifies, dwSize, pos, k)
    {
      if KeepsMoving(stream, notifies, dwSize, pos, k) {
        var n := SizeIsReached(stream, notifies, dwSize, pos, k, 0);
      }
      if n: nat :| ReachedAfter(stream, notifies, dwSize, pos, k, n) {
        forall m: nat | PositionAfter(stream, notifies, dwSize, pos, k, m) < dwSize
          ensures MovesAfter(stream, notifies, k + m)
        {
          if n < m {
            RoundsMove(stream, notifies, dwSize, pos, k, n, m);
          } else if !MovesAfter(stream, notifies, k + m) {
            Stalls(stream, notifies, dwSize, pos, k, m, n);
          }
        }
      }
    }

    lemma OnlyOnceReached(stream: SourceStream, notifies: bool, dwSize: nat, pos: nat, k: nat, m: nat, n: nat)
      requires pos <= dwSize
      requires ReachedAfter(stream, notifies, dwSize, pos, k, m) && ReachedAfter(stream, notifies, dwSize, pos, k, n)
      ensures m == n
    {
      if m < n {
        RoundsMove(stream, notifies, dwSize, pos, k, m, n - 1);
      } else if n < m {
        RoundsMove(stream, notifies, dwSize, pos, k, n, m - 1);
      }
    }

    /** More data has arrived: everything up to `dwSize` is fed, in as many rounds as it takes, provided moving rounds
        keep coming until then. */
    method OnDataAvailable(first: bool, stype: StreamType, dwSize: nat, stream: SourceStream)
      requires Valid() && stream.content == source && stream.pos == dataPos
      requires dwSize <= |source| && dwSize < DWORD_LIMIT
      requires first ==> dataPos == 0 && written == [] && ready == [] && tempFile == None
      requires stream.calls == |ready|
      requires pluginIsAlive && dataPos < dwSize ==>
                 KeepsMoving(stream, Notifies(first, stype), dwSize, dataPos, |ready|)
      modifies this, stream
      ensures Valid() && stream.pos == dataPos && pluginIsAlive == old(pluginIsAlive)
      ensures stream.calls == |ready| && notifyOnWrite == old(Notifies(first, stype))
      ensures dataPos == if pluginIsAlive then Max(old(dataPos), dwSize) else old(dataPos)
      ensures old(written) <= written && |old(ready)| <= |ready|
      ensures if pluginIsAlive && old(dataPos) < dwSize
              then ReachedAfter(stream, notifyOnWrite, dwSize, old(dataPos), |old(ready)|, |ready| - |old(ready)|)
              else ready == old(ready)
      ensures first && funcs.newstream && !stype.Seek? ==> ModeIs(stype)
      ensures !first ==> saveToTempFile == old(saveToTempFile) && notifyOnWrite == old(notifyOnWrite)
    {
      if first {
        OnNPPNewStream(stype);
      }
      if !pluginIsAlive {
        return;
      }
      var bData := new Byte[BUFFER_SIZE];
      if dataPos < dwSize {
        FeedAll(stream, bData, dwSize);
      }
    }

    /** The loop. */
    method FeedAll(stream: SourceStream, bData: array<Byte>, dwSize: nat)
      requires Valid() && stream.content == source && stream.pos == dataPos <= dwSize <= |source|
      requires dwSize < DWORD_LIMIT && bData.Length == BUFFER_SIZE && stream.calls == |ready|
      requires KeepsMoving(stream, notifyOnWrite, dwSize, dataPos, |ready|)
      modifies this`dataPos, this`tempFile, this`ready, this`written, stream, bData
      ensures Valid() && stream.pos == dataPos == dwSize && stream.calls == |ready|
      ensures old(written) <= written && |old(ready)| <= |ready|
      ensures ReachedAfter(stream, notifyOnWrite, dwSize, old(dataPos), |old(ready)|, |ready| - |old(ready)|)
    {
      hide IsExchange, Joined, Valid, PositionAfter, After, KeepsMoving, Moves;
      ghost var pos, k := dataPos, |ready|;
      ghost var rounds := SizeIsReached(stream, notifyOnWrite, dwSize, pos, k, 0);
      RoundIs(stream, notifyOnWrite, dwSize, pos, k, 0);
      while dataPos < dwSize
        invariant Valid() && stream.pos == dataPos <= dwSize && stream.calls == |ready| && old(written) <= written
        invariant k <= |ready| <= k + rounds && dataPos == PositionAfter(stream, notifyOnWrite, dwSize, pos, k, |ready| - k)
        decreases k + rounds - |ready|
      {
        RoundIs(stream, notifyOnWrite, dwSize, pos, k, |ready| - k);
        FeedOnce(stream, bData, dwSize);
      }
      if |ready| < k + rounds {
        RoundsMove(stream, notifyOnWrite, dwSize, pos, k, |ready| - k, rounds - 1);
      }
    }

    lemma RoundIs(stream: SourceStream, notifies: bool, dwSize: nat, pos: nat, k: nat, n: nat)
      requires pos <= dwSize
      ensures PositionAfter(stream, notifies, dwSize, pos, k, 0) == pos
      ensures PositionAfter(stream, notifies, dwSize, pos, k, n + 1) ==
              After(stream, notifies, dwSize, PositionAfter(stream, notifies, dwSize, pos, k, n), k + n)
    {
    }

    /** The end of the stream. If a temporary file was wanted, the plugin's `asfile` is called, with the file if it was
        opened and all went well, and with a null name otherwise. */
    method OnNPPDestroyStream(done: bool) returns (called: Option<Option<seq<Byte>>>)
      requires Valid()
      modifies this`tempFile
      ensures called.Some? <==> saveToTempFile && funcs.asfile
      ensures called.Some? ==> called.value == if done && old(tempFile).Some? then Some(source[..dataPos]) else None
      ensures called.Some? && dataPos > 0 ==> (called.value.Some? <==> done)
      ensures tempFile == None
    {
      called := None;
      if saveToTempFile {
        var name := if done && tempFile.Some? then tempFile else None;
        if funcs.asfile {
          called := Some(name);
        }
        tempFile := None;
      }
    }
  }

  /** Notification after notification, each in as many rounds as it takes, the announced sizes are reached, from position
      `pos` and round `k` on. */
  ghost predicate Delivers(callback: UrlDataCallback, stream: SourceStream, notifies: bool, sizes: seq<nat>, pos: nat, k: nat)
    decreases |sizes|
  {
    if sizes == [] then true
    else if sizes[0] <= pos then Delivers(callback, stream, notifies, sizes[1..], pos, k)
    else exists n: nat :: callback.ReachedAfter(stream, notifies, sizes[0], pos, k, n)
                     && Delivers(callback, stream, notifies, sizes[1..], sizes[0], k + n)
  }

  lemma NextDelivers(callback: UrlDataCallback, stream: SourceStream, notifies: bool, sizes: seq<nat>, i: nat, pos: nat, k: nat)
    requires i < |sizes| && Delivers(callback, stream, notifies, sizes[i..], pos, k)
    ensures sizes[i] <= pos ==> Delivers(callback, stream, notifies, sizes[i + 1..], pos, k)
    ensures pos < sizes[i] ==> callback.KeepsMoving(stream, notifies, sizes[i], pos, k)
    ensures pos < sizes[i] ==> forall n: nat :: callback.ReachedAfter(stream, notifies, sizes[i], pos, k, n) ==>
              Delivers(callback, stream, notifies, sizes[i + 1..], sizes[i], k + n)
  {
    assert sizes[i..][1..] == sizes[i + 1..];
    if pos < sizes[i] {
      var m: nat :| callback.ReachedAfter(stream, notifies, sizes[i], pos, k, m)
                    && Delivers(callback, stream, notifies, sizes[i + 1..], sizes[i], k + m);
      hide *;
      callback.ReachesExactly(stream, notifies, sizes[i], pos, k);
      forall n: nat | callback.ReachedAfter(stream, notifies, sizes[i], pos, k, n)
        ensures n == m
      {
        callback.OnlyOnceReached(stream, notifies, sizes[i], pos, k, m, n);
      }
    }
  }

  /** It is enough that moving rounds never cease. */
  lemma {:induction false} AlwaysMovingDelivers(callback: UrlDataCallback, stream: SourceStream, notifies: bool,
                                               sizes: seq<nat>, pos: nat, k: nat)
    requires forall n: nat :: callback.MovesAfter(stream, notifies, n)
    ensures Delivers(callback, stream, notifies, sizes, pos, k)
    decreases |sizes|
  {
    if sizes != [] {
      if sizes[0] <= pos {
        AlwaysMovingDelivers(callback, stream, notifies, sizes[1..], pos, k);
      } else {
        var n := callback.SizeIsReached(stream, notifies, sizes[0], pos, k, 0);
        AlwaysMovingDelivers(callback, stream, notifies, sizes[1..], sizes[0], k + n);
      }
    }
  }

  /** A whole download: any number of notifications, each announcing how much has arrived, and the end of the stream. */
  method Download(callback: UrlDataCallback, stream: SourceStream, stype: StreamType, sizes: seq<nat>)
      returns (called: Option<Option<seq<Byte>>>)
    requires callback.Valid() && callback.dataPos == 0 && callback.written == [] && callback.ready == []
    requires callback.tempFile == None && callback.pluginIsAlive && stream.content == callback.source && stream.pos == 0
    requires forall k :: 0 <= k < |sizes| ==> sizes[k] <= |callback.source| && sizes[k] < DWORD_LIMIT
    requires stream.calls == 0 && Delivers(callback, stream, callback.Notifies(true, stype), sizes, 0, 0)
    modifies callback, stream
    ensures callback.dataPos == Largest(sizes) <= |callback.source|
    ensures if callback.Feeds() then IsExchange(callback.written, callback.ready, callback.source[..Largest(sizes)])
            else callback.written == []
    ensures sizes != [] && callback.funcs.newstream && !stype.Seek? ==> callback.ModeIs(stype)
    ensures called.Some? <==> callback.saveToTempFile && callback.funcs.asfile
    ensures called.Some? && Largest(sizes) > 0 ==> called.value == Some(callback.source[..Largest(sizes)])
  {
    hide IsExchange, Joined, Delivers, UrlDataCallback.ReachedAfter, UrlDataCallback.KeepsMoving;
    ghost var notifies := callback.Notifies(true, stype);
    assert sizes[0..] == sizes;
    for i := 0 to |sizes|
      invariant callback.Valid() && stream.pos == callback.dataPos == Largest(sizes[..i]) && callback.pluginIsAlive
      invariant i > 0 && callback.funcs.newstream && !stype.Seek? ==> callback.ModeIs(stype)
      invariant stream.calls == |callback.ready| && callback.Notifies(i == 0, stype) == notifies
      invariant Delivers(callback, stream, notifies, sizes[i..], callback.dataPos, |callback.ready|)
      invariant i == 0 ==> callback.written == [] && callback.ready == [] && callback.tempFile == None
    {
      assert sizes[..i + 1][..i] == sizes[..i];
      NextDelivers(callback, stream, notifies, sizes, i, callback.dataPos, |callback.ready|);
      callback.OnDataAvailable(i == 0, stype, sizes[i], stream);
    }
    assert sizes[..|sizes|] == sizes;
    called := callback.OnNPPDestroyStream(true);
  }

  function Largest(sizes: seq<nat>): nat {
    if sizes == [] then 0 else Max(Largest(sizes[..|sizes| - 1]), sizes[|sizes| - 1])
  }
}
