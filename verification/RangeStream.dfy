/** Range responses: streams limited to a range of a file, and the parts of a multipart answer. */
module RangeStreams {
  import opened Common
  import opened Pieces
  import opened Torrents
  import opened Readers

  datatype Command = ReadUpTo(count: int) | SeekTo(offset: int, whence: Whence)

  datatype Reply = Bytes(bytes: seq<byte>) | Position(at: int)

  /** Where one command leaves the position in a byte array of `size` bytes. */
  function Moved(size: int, pos: int, c: Command): int {
    match c
    case ReadUpTo(count) => pos + ReadCount(size, pos, count)
    case SeekTo(offset, whence) =>
      var target := SeekTarget(size, pos, offset, whence);
      if target.Some? then target.value else pos
  }

  /** What one command answers on a byte array. */
  function Answer(file: seq<byte>, pos: int, c: Command): Reply
    requires 0 <= pos <= |file|
  {
    match c
    case ReadUpTo(count) => Bytes(file[pos..pos + ReadCount(|file|, pos, count)])
    case SeekTo(offset, whence) =>
      var target := SeekTarget(|file|, pos, offset, whence);
      Position(if target.Some? then target.value else -1)
  }

  /** Where a program of reads and seeks leaves the position. */
  function PositionAfter(size: int, pos: int, program: seq<Command>): (at: int)
    requires 0 <= pos <= size
    ensures 0 <= at <= size
    decreases |program|
  {
    if program == [] then pos
    else Moved(size, PositionAfter(size, pos, program[..|program| - 1]), program[|program| - 1])
  }

  /** What a program of reads and seeks answers on a byte array, command by command. */
  function Answers(file: seq<byte>, pos: int, program: seq<Command>): (replies: seq<Reply>)
    requires 0 <= pos <= |file|
    ensures |replies| == |program|
    decreases |program|
  {
    if program == [] then []
    else
      var before := program[..|program| - 1];
      Answers(file, pos, before) + [Answer(file, PositionAfter(|file|, pos, before), program[|program| - 1])]
  }

  /** How many bytes the reads of a program ask for. */
  function AskedFor(program: seq<Command>): (n: nat) {
    if program == [] then 0
    else
      var last := program[|program| - 1];
      AskedFor(program[..|program| - 1]) + if last.ReadUpTo? then Max(0, last.count) else 0
  }

  /** The bytes of all replies, one after the other. */
  function Concatenated(replies: seq<Reply>): seq<byte> {
    if replies == [] then []
    else
      var last := replies[|replies| - 1];
      Concatenated(replies[..|replies| - 1]) + if last.Bytes? then last.bytes else []
  }

  /** Reads hand out the file from where they start, without gap or overlap, and stop short only at its end. */
  lemma {:induction false} ReadsConcatenate(file: seq<byte>, pos: int, program: seq<Command>)
    requires 0 <= pos <= |file| && forall i :: 0 <= i < |program| ==> program[i].ReadUpTo?
    ensures var end := Min(pos + AskedFor(program), |file|);
            && PositionAfter(|file|, pos, program) == end
            && Concatenated(Answers(file, pos, program)) == file[pos..end]
  {
    if program != [] {
      var before, last := program[..|program| - 1], program[|program| - 1];
      ReadsConcatenate(file, pos, before);
      var at, end := PositionAfter(|file|, pos, before), PositionAfter(|file|, pos, program);
      AppendReply(Answers(file, pos, before), file[at..end]);
      assert Answers(file, pos, program) == Answers(file, pos, before) + [Bytes(file[at..end])];
      hide Concatenated, Answers;
      assert file[pos..at] + file[at..end] == file[pos..end];
    }
  }

  lemma AppendReply(replies: seq<Reply>, bytes: seq<byte>)
    ensures Concatenated(replies + [Bytes(bytes)]) == Concatenated(replies) + bytes
  {
    assert (replies + [Bytes(bytes)])[..|replies|] == replies;
  }

  /**
   * Reading where one seeks to: from an offset of the file, or the file's last bytes. A seek tells the new
   * position, so one by nothing tells the current one; a target outside the file moves nothing.
   */
  lemma SeekThenRead(file: seq<byte>, pos: int, offset: int, count: int)
    requires 0 <= pos <= |file|
    ensures 0 <= offset <= |file| && 0 <= count ==>
              Answers(file, pos, [SeekTo(offset, Beginning), ReadUpTo(count)])
              == [Position(offset), Bytes(file[offset..Min(offset + count, |file|)])]
    ensures 0 <= count <= |file| ==>
              Answers(file, pos, [SeekTo(-count, End), ReadUpTo(count)])
              == [Position(|file| - count), Bytes(file[|file| - count..])]
    ensures var target := pos + offset;
            && Answers(file, pos, [SeekTo(offset, Current)]) == [Position(if 0 <= target <= |file| then target else -1)]
            && PositionAfter(|file|, pos, [SeekTo(offset, Current)]) == if 0 <= target <= |file| then target else pos
    ensures offset < 0 || offset > |file| ==>
              && Answers(file, pos, [SeekTo(offset, Beginning)]) == [Position(-1)]
              && PositionAfter(|file|, pos, [SeekTo(offset, Beginning)]) == pos
    ensures offset < -|file| || offset > 0 ==>
              && Answers(file, pos, [SeekTo(offset, End)]) == [Position(-1)]
              && PositionAfter(|file|, pos, [SeekTo(offset, End)]) == pos
    ensures Answers(file, pos, [SeekTo(offset, Unknown)]) == [Position(-1)]
  {
    TwoCommands(file, pos, SeekTo(offset, Beginning), ReadUpTo(count));
    TwoCommands(file, pos, SeekTo(-count, End), ReadUpTo(count));
    OneCommand(file, pos, SeekTo(offset, Beginning));
    OneCommand(file, pos, SeekTo(offset, Current));
    OneCommand(file, pos, SeekTo(offset, End));
    OneCommand(file, pos, SeekTo(offset, Unknown));
    assert 0 <= count <= |file| ==> file[|file| - count..|file|] == file[|file| - count..];
    hide Answers, PositionAfter;
  }

  lemma OneCommand(file: seq<byte>, pos: int, c: Command)
    requires 0 <= pos <= |file|
    ensures Answers(file, pos, [c]) == [Answer(file, pos, c)]
    ensures PositionAfter(|file|, pos, [c]) == Moved(|file|, pos, c)
  {
    assert [c][..0] == [] && Answers(file, pos, []) == [];
  }

  lemma TwoCommands(file: seq<byte>, pos: int, c: Command, d: Command)
    requires 0 <= pos <= |file|
    ensures 0 <= Moved(|file|, pos, c) <= |file|
    ensures Answers(file, pos, [c, d]) == [Answer(file, pos, c), Answer(file, Moved(|file|, pos, c), d)]
  {
    OneCommand(file, pos, c);
    assert [c, d][..1] == [c];
  }

  method Perform(reader: Reader, c: Command) returns (reply: Outcome<Reply>)
    requires reader.Valid()
    modifies reader`mPos, reader.torrent
    ensures reader.Valid() && reader.torrent.Advanced()
    ensures reply.Ok? ==> reply.value == Answer(reader.Contents(), old(reader.mPos), c)
    ensures reply.Ok? ==> reader.mPos == Moved(reader.mSize, old(reader.mPos), c)
    ensures reply.Ok? && NoCleanups(old(reader.torrent.schedule)) ==>
              Served(reader, old(reader.mPos), c, reader.torrent.Ready())
    ensures !reply.Ok? ==> reader.mPos == old(reader.mPos) && Starved(reader, old(reader.torrent.now), c, reply)
  {
    hide PieceAt, Missed, Covers;
    match c {
      case ReadUpTo(count) =>
        var buf := new byte[Max(0, count)];
        var o, had, until := reader.Read(buf, count);
        if o.Ok? {
          return Ok(Bytes(buf[..o.value]));
        }
        reply := o.Failure();
        MissedMeans(reader.torrent, reader.mOffset + reader.mPos, ReadCount(reader.mSize, reader.mPos, count), until,
                    Due(old(reader.torrent.now), reader.mPieceWaitTimeout), o, reply);
      case SeekTo(offset, whence) =>
        var at, had := reader.Seek(offset, whence);
        return Ok(Position(at));
    }
  }

  /** The pieces a command needs at a position are among the given ones; a seek needs none. */
  ghost predicate Served(reader: Reader, pos: int, c: Command, pieces: set<int>)
    requires reader.mPieceLength > 0
  {
    c.ReadUpTo? ==> reader.Within(pos, ReadCount(reader.mSize, pos, c.count), pieces)
  }

  /** The command is a read whose pieces were not all owned and cached in time. */
  ghost predicate Starved<T>(reader: Reader, since: int, c: Command, o: Outcome<T>)
    reads reader, reader.torrent
    requires reader.torrent.layout.Valid()
  {
    c.ReadUpTo? && Missed(reader.torrent, reader.mOffset + reader.mPos, ReadCount(reader.mSize, reader.mPos, c.count),
                          Due(since, reader.mPieceWaitTimeout), o)
  }

  /** The pieces that the reads of a program need from a position on are among the given ones. */
  ghost predicate AllServed(reader: Reader, pos: int, program: seq<Command>, pieces: set<int>)
    requires reader.mPieceLength > 0 && 0 <= pos <= reader.mSize
  {
    forall i :: 0 <= i < |program| ==>
      Served(reader, PositionAfter(reader.mSize, pos, program[..i]), program[i], pieces)
  }

  lemma ServedMore(reader: Reader, pos: int, program: seq<Command>, pieces: set<int>, more: set<int>)
    requires reader.mPieceLength > 0 && 0 <= pos <= reader.mSize
    ensures pieces <= more && AllServed(reader, pos, program, pieces) ==> AllServed(reader, pos, program, more)
  {
    hide PositionAfter, ReadCount;
  }

  lemma ServedStep(reader: Reader, pos: int, program: seq<Command>, c: Command, pieces: set<int>)
    requires reader.mPieceLength > 0 && 0 <= pos <= reader.mSize
    ensures AllServed(reader, pos, program + [c], pieces) <==>
              && AllServed(reader, pos, program, pieces)
              && Served(reader, PositionAfter(reader.mSize, pos, program), c, pieces)
  {
    hide PositionAfter, Served;
    var all := program + [c];
    assert all[..|program|] == program;
    forall i | 0 <= i < |program|
      ensures all[..i] == program[..i] && all[i] == program[i]
    {
    }
    if AllServed(reader, pos, all, pieces) {
      forall i | 0 <= i < |program|
        ensures Served(reader, PositionAfter(reader.mSize, pos, program[..i]), program[i], pieces)
      {
        assert Served(reader, PositionAfter(reader.mSize, pos, all[..i]), all[i], pieces);
      }
      assert Served(reader, PositionAfter(reader.mSize, pos, all[..|program|]), all[|program|], pieces);
    }
  }

  /**
   * A reader answers a program of reads and seeks as a byte array holding the file would. It stops only at
   * a read whose pieces are not all owned and cached in time; when no other thread expires pieces it goes
   * through iff those of every read end up owned and cached.
   */
  method Execute(reader: Reader, program: seq<Command>) returns (replies: seq<Reply>, o: Outcome<()>)
    requires reader.Valid()
    modifies reader`mPos, reader.torrent
    ensures reader.Valid() && reader.torrent.Advanced()
    ensures |replies| <= |program| && (o.Ok? <==> |replies| == |program|)
    ensures replies == Answers(reader.Contents(), old(reader.mPos), program[..|replies|])
    ensures reader.mPos == PositionAfter(reader.mSize, old(reader.mPos), program[..|replies|])
    ensures !o.Ok? ==> Starved(reader, old(reader.torrent.now), program[|replies|], o)
    ensures NoCleanups(old(reader.torrent.schedule)) ==>
              (o.Ok? <==> AllServed(reader, old(reader.mPos), program, reader.torrent.Ready()))
    ensures NoCleanups(old(reader.torrent.schedule)) ==>
              AllServed(reader, old(reader.mPos), program, old(reader.torrent.Ready())) ==> o.Ok?
  {
    hide PieceAt, Answer, Moved, Covers, Starved, reader.Contents, NoCleanups, NoPauses, Untouched, Served, AllServed;
    hide reader.torrent.CacheValid, reader.torrent.QueueAndOwnershipValid, reader.torrent.PrioritiesValid,
         reader.torrent.ScheduleValid;
    ghost var file, pos, start := reader.Contents(), reader.mPos, reader.torrent.Ready();
    replies := [];
    NothingServed(reader, pos, start);
    for i := 0 to |program|
      invariant reader.Valid() && reader.torrent.Advanced() && |replies| == i
      invariant reader.mPos == PositionAfter(|file|, pos, program[..i])
      invariant replies == Answers(file, pos, program[..i])
      invariant NoCleanups(old(reader.torrent.schedule)) ==>
                  AllServed(reader, pos, program[..i], reader.torrent.Ready())
    {
      ghost var before, since := reader.torrent.Ready(), reader.torrent.now;
      var reply := Perform(reader, program[i]);
      if !reply.Ok? {
        o := reply.Failure();
        StarvedMeans(reader, since, old(reader.torrent.now), program[i], reply, o);
        StarvedStops(reader, pos, program, i, start);
        return;
      }
      ServedMore(reader, pos, program[..i], before, reader.torrent.Ready());
      ServedStep(reader, pos, program[..i], program[i], reader.torrent.Ready());
      assert program[..i + 1] == program[..i] + [program[i]];
      replies := replies + [reply.value];
    }
    assert program[..|program|] == program;
    o := Ok(());
  }

  lemma NothingServed(reader: Reader, pos: int, pieces: set<int>)
    requires reader.mPieceLength > 0 && 0 <= pos <= reader.mSize
    ensures AllServed(reader, pos, [], pieces)
  {
  }

  /** A starved read is not served; the failure is the same for the whole program, which started earlier. */
  lemma StarvedMeans<S, T>(reader: Reader, since: int, earlier: int, c: Command, o: Outcome<S>, r: Outcome<T>)
    requires reader.Valid() && Starved(reader, since, c, o) && earlier <= since && !o.Ok? && r == o.Failure()
    ensures Starved(reader, earlier, c, r) && c.ReadUpTo?
    ensures !Served(reader, reader.mPos, c, reader.torrent.Ready())
  {
    hide Missed, Covers;
    var n := ReadCount(reader.mSize, reader.mPos, c.count);
    var due, earliest := Due(since, reader.mPieceWaitTimeout), Due(earlier, reader.mPieceWaitTimeout);
    MissedMeans(reader.torrent, reader.mOffset + reader.mPos, n, due, earliest, o, r);
  }

  /** A program with a command that is not served is not served, and was not before pieces were added. */
  lemma StarvedStops(reader: Reader, pos: int, program: seq<Command>, n: nat, before: set<int>)
    requires reader.Valid() && 0 <= pos <= reader.mSize && n < |program|
    requires reader.mPos == PositionAfter(reader.mSize, pos, program[..n])
    requires !Served(reader, reader.mPos, program[n], reader.torrent.Ready())
    ensures !AllServed(reader, pos, program, reader.torrent.Ready())
    ensures before <= reader.torrent.Ready() ==> !AllServed(reader, pos, program, before)
  {
    hide PositionAfter, Served;
    if before <= reader.torrent.Ready() {
      ServedMore(reader, pos, program, before, reader.torrent.Ready());
    }
  }

  /** A stream over a reader that ends after `mSize` bytes. */
  class RangeInputStream {
    const mReader: Reader
    const mSize: int
    ghost const start: int
    var mPosition: int

    ghost predicate Valid()
      reads this, mReader, mReader.torrent
    {
      && mReader.Valid()
      && 0 <= start <= mReader.mSize
      && 0 <= mPosition && mReader.mPos == start + mPosition
      && (mPosition == 0 || mPosition <= mSize)
    }

    /** The bytes still to come: the rest of the range, clipped to the file. */
    ghost function Remaining(): (rest: seq<byte>)
      reads this, mReader, mReader.torrent
      requires Valid()
      ensures |rest| == Max(0, Min(mSize - mPosition, mReader.mSize - mReader.mPos))
    {
      mReader.Contents()[mReader.mPos..mReader.mPos + ReadCount(mReader.mSize, mReader.mPos, mSize - mPosition)]
    }

    constructor (reader: Reader, size: int)
      requires reader.Valid()
      ensures mReader == reader && mSize == size && mPosition == 0 && Valid()
    {
      mReader, mSize, mPosition, start := reader, size, 0, reader.mPos;
    }

    /** The rest's pieces up to byte `n` are among the given ones. */
    ghost predicate Within(n: int, pieces: set<int>)
      reads this, mReader
      requires mReader.mPieceLength > 0
    {
      mReader.Within(mReader.mPos, n, pieces)
    }

    /** Why a read of the next `n` bytes of the range failed, for an operation that started at `since`. */
    ghost predicate Starved<T>(n: int, since: int, o: Outcome<T>)
      reads this, mReader, mReader.torrent
      requires mReader.torrent.layout.Valid()
    {
      Missed(mReader.torrent, mReader.mOffset + mReader.mPos, n, Due(since, mReader.mPieceWaitTimeout), o)
    }

    method Read(buf: array<byte>, count: int) returns (o: Outcome<int>)
      requires Valid() && count <= buf.Length
      modifies `mPosition, mReader`mPos, mReader.torrent, buf
      ensures Valid() && mReader.torrent.Advanced()
      ensures o.Ok? ==>
                && o.value == Max(0, Min(count, |old(Remaining())|))
                && buf[..][..o.value] == old(Remaining())[..o.value]
                && Remaining() == old(Remaining())[o.value..]
                && mReader.mPos == old(mReader.mPos) + o.value
      ensures o.Ok? && NoCleanups(old(mReader.torrent.schedule)) ==>
                mReader.Within(old(mReader.mPos), o.value, mReader.torrent.Ready())
      ensures !o.Ok? ==> Remaining() == old(Remaining()) && mReader.mPos == old(mReader.mPos)
      ensures !o.Ok? ==> Starved(Max(0, Min(count, |Remaining()|)), old(mReader.torrent.now), o)
      ensures o.Ok? ==> buf[..][o.value..] == old(buf[..])[o.value..]
    {
      hide PieceAt, Covers, NoCleanups, NoPauses, Untouched, Missed;
      hide mReader.WindowSpan, mReader.Looked, mReader.OnTop, mReader.Contents, mReader.torrent.Advanced, GaveUp;
      hide mReader.torrent.CacheValid, mReader.torrent.QueueAndOwnershipValid, mReader.torrent.PrioritiesValid,
           mReader.torrent.ScheduleValid;
      hide Min, Max, ReadCount;
      ghost var contents, pos := mReader.Contents(), mReader.mPos;
      NextBytes(contents, pos, mSize - mPosition, count);
      var desiredAmount := Min(count, mSize - mPosition);
      DesiredInBuffer(count, mSize - mPosition);
      if desiredAmount <= 0 {
        mReader.torrent.NothingDone();
        CoversNothing(mReader.mOffset + mReader.mPos, mReader.mPieceLength, {}, mReader.torrent.Ready());
        return Ok(0);
      }
      var n, had, until := mReader.Read(buf, desiredAmount);
      o := n;
      if o.Ok? {
        mPosition := mPosition + o.value;
      } else {
        MissedMeans(mReader.torrent, mReader.mOffset + pos, ReadCount(mReader.mSize, pos, desiredAmount), until,
                    Due(old(mReader.torrent.now), mReader.mPieceWaitTimeout), n, o);
      }
    }

    /** A read into a new buffer. */
    method Next(chunk: int) returns (bytes: Outcome<seq<byte>>)
      requires Valid() && 0 < chunk
      modifies `mPosition, mReader`mPos, mReader.torrent
      ensures Valid() && mReader.torrent.Advanced()
      ensures bytes.Ok? ==>
                && bytes.value + Remaining() == old(Remaining())
                && |bytes.value| == Min(chunk, |old(Remaining())|)
                && mReader.mPos == old(mReader.mPos) + |bytes.value|
      ensures bytes.Ok? && NoCleanups(old(mReader.torrent.schedule)) ==>
                mReader.Within(old(mReader.mPos), |bytes.value|, mReader.torrent.Ready())
      ensures !bytes.Ok? ==> Remaining() == old(Remaining()) && mReader.mPos == old(mReader.mPos)
      ensures !bytes.Ok? ==> Starved(Min(chunk, |Remaining()|), old(mReader.torrent.now), bytes)
    {
      hide PieceAt, Covers, Remaining, Missed, NoCleanups, NoPauses, Untouched;
      hide mReader.torrent.CacheValid, mReader.torrent.QueueAndOwnershipValid, mReader.torrent.PrioritiesValid,
           mReader.torrent.ScheduleValid;
      var buf := new byte[chunk];
      var o := Read(buf, chunk);
      if o.Ok? {
        return Ok(buf[..o.value]);
      }
      bytes := o.Failure();
      ghost var due := Due(old(mReader.torrent.now), mReader.mPieceWaitTimeout);
      MissedMeans(mReader.torrent, mReader.mOffset + mReader.mPos, Min(chunk, |Remaining()|), due, due, o, bytes);
    }

    /**
     * What a consumer does with the stream: reads of `chunk` bytes until one delivers nothing. It is
     * complete unless the pieces of the next bytes were not all owned and cached in time; when no other
     * thread expires pieces, iff those of the whole rest end up owned and cached.
     */
    method Transfer(chunk: int) returns (sent: seq<byte>, o: Outcome<()>)
      requires Valid() && 0 < chunk
      modifies `mPosition, mReader`mPos, mReader.torrent
      ensures Valid() && mReader.torrent.Advanced()
      ensures sent + Remaining() == old(Remaining()) && mReader.mPos == old(mReader.mPos) + |sent|
      ensures o.Ok? <==> Remaining() == []
      // The range ends where it was asked to, or where the file does.
      ensures o.Ok? ==> mReader.mPos == Min(start + Max(0, mSize), mReader.mSize)
      ensures !o.Ok? ==> Starved(Min(chunk, |Remaining()|), old(mReader.torrent.now), o)
      ensures NoCleanups(old(mReader.torrent.schedule)) ==>
                (o.Ok? <==> mReader.Within(old(mReader.mPos), |old(Remaining())|, mReader.torrent.Ready()))
      ensures NoCleanups(old(mReader.torrent.schedule)) ==>
                old(Within(|Remaining()|, mReader.torrent.Ready())) ==> o.Ok?
    {
      hide PieceAt, Covers, Remaining, NoCleanups, NoPauses, Untouched, Starved, Missed;
      hide mReader.torrent.CacheValid, mReader.torrent.QueueAndOwnershipValid, mReader.torrent.PrioritiesValid,
           mReader.torrent.ScheduleValid;
      ghost var pos, base, d := mReader.mPos, mReader.mOffset + mReader.mPos, mReader.mPieceLength;
      ghost var start := mReader.torrent.Ready();
      sent := [];
      CoversNothing(base, d, {}, start);
      SameTables(mReader.torrent.schedule, map[], map[]);
      while true
        invariant Valid() && mReader.torrent.Advanced() && sent + Remaining() == old(Remaining())
        invariant mReader.mPos == pos + |sent|
        invariant NoCleanups(old(mReader.torrent.schedule)) ==> Covers(base, |sent|, d, mReader.torrent.Ready())
        decreases |Remaining()|
      {
        ghost var before, since := mReader.torrent.Ready(), mReader.torrent.now;
        var bytes := Next(chunk);
        if !bytes.Ok? {
          o := bytes.Failure();
          StarvedRest(chunk, since, old(mReader.torrent.now), bytes, o, pos, |sent|, start);
          return;
        }
        if bytes.value == [] {
          CoversMore(base, |sent|, d, before, mReader.torrent.Ready());
          RangeEnds();
          return sent, Ok(());
        }
        CoversMore(base, |sent|, d, before, mReader.torrent.Ready());
        CoversParts(base, |sent|, |bytes.value|, d, mReader.torrent.Ready());
        sent := sent + bytes.value;
      }
    }

    lemma RangeEnds()
      requires Valid() && Remaining() == []
      ensures mReader.mPos == Min(start + Max(0, mSize), mReader.mSize)
    {
    }

    /** A starved read leaves the rest, and so the whole range, not covered. */
    lemma StarvedRest<S, T>(chunk: int, since: int, earlier: int, o: Outcome<S>, r: Outcome<T>, pos: int, sent: int,
                            before: set<int>)
      requires Valid() && 0 < chunk && 0 <= sent && mReader.mPos == pos + sent
      requires Starved(Min(chunk, |Remaining()|), since, o) && earlier <= since && !o.Ok? && r == o.Failure()
      ensures Starved(Min(chunk, |Remaining()|), earlier, r) && Remaining() != []
      ensures !mReader.Within(pos, sent + |Remaining()|, mReader.torrent.Ready())
      ensures before <= mReader.torrent.Ready() ==> !mReader.Within(pos, sent + |Remaining()|, before)
    {
      hide Covers, PieceAt, Remaining;
      var n, rest := Min(chunk, |Remaining()|), |Remaining()|;
      var torrent, base, ready := mReader.torrent, mReader.mOffset + mReader.mPos, mReader.torrent.Ready();
      MissedMeans(torrent, base, n, Due(since, mReader.mPieceWaitTimeout), Due(earlier, mReader.mPieceWaitTimeout), o,
                  r);
      CoversParts(base, n, rest - n, mReader.mPieceLength, ready);
      CoversParts(mReader.mOffset + pos, sent, rest, mReader.mPieceLength, ready);
      if before <= ready {
        CoversMore(mReader.mOffset + pos, sent + rest, mReader.mPieceLength, before, ready);
      }
    }
  }

  /** A read of at most `count` bytes of a rest of at most `rest` bytes from `pos` on takes its first bytes. */
  lemma NextBytes(file: seq<byte>, pos: int, rest: int, count: int)
    requires 0 <= pos <= |file|
    ensures var n, r := ReadCount(|file|, pos, Min(count, rest)), ReadCount(|file|, pos, rest);
            && n == Max(0, Min(count, r)) && 0 <= n <= r && pos + r <= |file|
            && (if Min(count, rest) <= 0 then n == 0 else r <= rest)
            && ReadCount(|file|, pos + n, rest - n) == r - n
            && file[pos..pos + n] == file[pos..pos + r][..n]
            && file[pos + n..pos + n + (r - n)] == file[pos..pos + r][n..]
  {
  }

  lemma DesiredInBuffer(count: int, rest: int)
    ensures var desired := Min(count, rest);
            desired <= count && (desired < count ==> desired == rest) && (0 < desired ==> Max(0, desired) == desired)
  {
  }

  datatype Range = Range(start: int, length: int)

  /** A file of a torrent, with what its readers are created from. */
  datatype FileSpan = FileSpan(offset: int, size: int, ahead: int, timeout: int) {
    ghost predicate In(torrent: Torrent)
      reads torrent
    {
      torrent.Valid() && 0 <= offset && 0 <= size && offset + size <= |torrent.layout.data|
    }

    ghost function Contents(torrent: Torrent): seq<byte>
      reads torrent
      requires In(torrent)
    {
      torrent.layout.data[offset..offset + size]
    }

    predicate Has(range: Range) {
      0 <= range.start <= size
    }

    /** How many bytes of the file a range selects. */
    function Count(range: Range): int {
      ReadCount(size, range.start, range.length)
    }

    /** A range starts in the file, and its pieces are among the given ones. */
    ghost predicate Provided(range: Range, d: int, pieces: set<int>)
      requires d > 0
    {
      Has(range) && Covers(offset + range.start, Count(range), d, pieces)
    }

    /** Why the bytes of a range did not all arrive: some were not owned and cached in time. */
    ghost predicate Starved<T>(torrent: Torrent, range: Range, since: int, o: Outcome<T>)
      reads torrent
      requires torrent.layout.Valid()
    {
      && !Covers(offset + range.start, Count(range), torrent.layout.pieceLength, torrent.Ready())
      && GaveUp(torrent, Due(since, timeout), o)
    }
  }

  /** Opens the payload of one part; None when the range does not start in the file. */
  method OpenInputStream(torrent: Torrent, file: FileSpan, range: Range) returns (stream: RangeInputStream?)
    requires file.In(torrent)
    modifies torrent
    ensures file.In(torrent) && torrent.Advanced()
    ensures stream != null <==> 0 <= range.start <= file.size
    ensures stream != null ==>
              && fresh(stream) && fresh(stream.mReader) && stream.Valid() && stream.mReader.torrent == torrent
              && stream.mReader.mOffset == file.offset && stream.mReader.mPos == range.start
              && stream.mReader.mPieceWaitTimeout == file.timeout
              && stream.Remaining()
                 == file.Contents(torrent)[range.start..Min(range.start + Max(0, range.length), file.size)]
  {
    hide PieceAt, Agree, Untouched, NoCleanups, NoPauses;
    var reader := new Reader(torrent, file.offset, file.size, torrent.layout.pieceLength, file.ahead, file.timeout);
    var at, had := reader.Seek(range.start, Beginning);
    if at < 0 {
      return null;
    }
    stream := new RangeInputStream(reader, range.length);
  }

  /** A multipart answer, read part by part. */
  class Multipart {
    const mRanges: seq<Range>
    var mNextRange: nat

    constructor (ranges: seq<Range>)
      ensures mRanges == ranges && mNextRange == 0
    {
      mRanges, mNextRange := ranges, 0;
    }

    method ReadNextPart() returns (part: Option<Range>)
      modifies this
      ensures part == if old(mNextRange) < |mRanges| then Some(mRanges[old(mNextRange)]) else None
      ensures mNextRange == old(mNextRange) + if part.Some? then 1 else 0
    {
      if mNextRange >= |mRanges| {
        return None;
      }
      var range := mRanges[mNextRange];
      mNextRange := mNextRange + 1;
      return Some(range);
    }

    /** The bytes of one part, all of them or a failure. */
    method SendPart(torrent: Torrent, file: FileSpan, range: Range, chunk: int) returns (o: Outcome<seq<byte>>)
      requires file.In(torrent) && 0 < chunk
      modifies torrent
      ensures file.In(torrent) && torrent.Advanced()
      ensures o.Ok? ==> var end := Min(range.start + Max(0, range.length), file.size);
                        file.Has(range) && o.value == old(file.Contents(torrent))[range.start..end]
      ensures !o.Ok? ==> if file.Has(range) then file.Starved(torrent, range, old(torrent.now), o)
                         else o == Threw(InvalidRangeStart)
      ensures NoCleanups(old(torrent.schedule)) ==>
                (o.Ok? <==> file.Provided(range, torrent.layout.pieceLength, torrent.Ready()))
    {
      hide PieceAt, Covers, NoCleanups, NoPauses, Untouched, Missed;
      hide torrent.CacheValid, torrent.QueueAndOwnershipValid, torrent.PrioritiesValid, torrent.ScheduleValid;
      var stream := OpenInputStream(torrent, file, range);
      if stream == null {
        return Threw(InvalidRangeStart);
      }
      ghost var since := torrent.now;
      var sent, all := stream.Transfer(chunk);
      if all.Ok? {
        return Ok(sent);
      }
      o := all.Failure();
      ghost var n, rest := Min(chunk, |stream.Remaining()|), |stream.Remaining()|;
      MissedMeans(torrent, file.offset + range.start + |sent|, n, Due(since, file.timeout),
                  Due(old(torrent.now), file.timeout), all, o);
      CoversParts(file.offset + range.start, |sent|, rest, torrent.layout.pieceLength, torrent.Ready());
      CoversParts(file.offset + range.start + |sent|, n, rest - n, torrent.layout.pieceLength, torrent.Ready());
    }

    /**
     * The whole answer: every range once, in order, each part the bytes of its range. It stops early only
     * at a range that starts outside the file, or whose pieces were not all owned and cached in time; when
     * no other thread expires pieces it is complete iff all ranges are provided for in the end.
     */
    method Respond(torrent: Torrent, file: FileSpan, chunk: int) returns (parts: seq<seq<byte>>, o: Outcome<()>)
      requires file.In(torrent) && 0 < chunk && mNextRange == 0
      modifies this, torrent
      ensures file.In(torrent) && torrent.Advanced()
      ensures |parts| <= |mRanges| && (o.Ok? <==> |parts| == |mRanges|)
      ensures mNextRange == |parts| + if o.Ok? then 0 else 1
      ensures forall i :: 0 <= i < |parts| ==>
                && file.Has(mRanges[i])
                && var start, end := mRanges[i].start, Min(mRanges[i].start + Max(0, mRanges[i].length), file.size);
                   parts[i] == old(file.Contents(torrent))[start..end]
      ensures !o.Ok? ==> if file.Has(mRanges[|parts|])
                         then file.Starved(torrent, mRanges[|parts|], old(torrent.now), o)
                         else o == Threw(InvalidRangeStart)
      ensures NoCleanups(old(torrent.schedule)) ==>
                (o.Ok? <==> AllProvided(file, mRanges, torrent.layout.pieceLength, torrent.Ready()))
      ensures NoCleanups(old(torrent.schedule)) ==>
                AllProvided(file, mRanges, torrent.layout.pieceLength, old(torrent.Ready())) ==> o.Ok?
    {
      hide PieceAt, Covers, NoCleanups, NoPauses, Untouched, file.Starved, file.Provided;
      hide torrent.CacheValid, torrent.QueueAndOwnershipValid, torrent.PrioritiesValid, torrent.ScheduleValid;
      ghost var contents, d, start := file.Contents(torrent), torrent.layout.pieceLength, torrent.Ready();
      parts := [];
      while true
        invariant file.In(torrent) && torrent.Advanced() && file.Contents(torrent) == contents
        invariant |parts| == mNextRange <= |mRanges|
        invariant forall i :: 0 <= i < |parts| ==>
                    && file.Has(mRanges[i])
                    && var start, end := mRanges[i].start, Min(mRanges[i].start + Max(0, mRanges[i].length), file.size);
                       parts[i] == contents[start..end]
        invariant NoCleanups(old(torrent.schedule)) ==> AllProvided(file, mRanges[..mNextRange], d, torrent.Ready())
        decreases |mRanges| - mNextRange
      {
        ghost var before, since, n := torrent.Ready(), torrent.now, mNextRange;
        var part := ReadNextPart();
        if part.None? {
          assert mRanges[..n] == mRanges;
          return parts, Ok(());
        }
        var sent := SendPart(torrent, file, part.value, chunk);
        if !sent.Ok? {
          o := sent.Failure();
          StarvedPart(torrent, file, part.value, since, old(torrent.now), sent, o);
          NotAllProvided(file, mRanges, n, d, start, torrent.Ready());
          return;
        }
        ProvidedMore(file, mRanges[..n], d, before, torrent.Ready());
        ProvidedStep(file, mRanges[..n], part.value, d, torrent.Ready());
        assert mRanges[..n + 1] == mRanges[..n] + [part.value];
        parts := parts + [sent.value];
      }
    }
  }

  ghost predicate AllProvided(file: FileSpan, ranges: seq<Range>, d: int, pieces: set<int>)
    requires d > 0
  {
    forall i :: 0 <= i < |ranges| ==> file.Provided(ranges[i], d, pieces)
  }

  lemma ProvidedMore(file: FileSpan, ranges: seq<Range>, d: int, pieces: set<int>, more: set<int>)
    requires d > 0
    ensures pieces <= more && AllProvided(file, ranges, d, pieces) ==> AllProvided(file, ranges, d, more)
  {
    hide PieceAt;
  }

  lemma ProvidedStep(file: FileSpan, ranges: seq<Range>, range: Range, d: int, pieces: set<int>)
    requires d > 0
    ensures AllProvided(file, ranges, d, pieces) && file.Provided(range, d, pieces) ==>
              AllProvided(file, ranges + [range], d, pieces)
  {
    hide file.Provided;
  }

  lemma NotAllProvided(file: FileSpan, ranges: seq<Range>, n: nat, d: int, before: set<int>, pieces: set<int>)
    requires d > 0 && n < |ranges|
    ensures !file.Provided(ranges[n], d, pieces) ==>
              && !AllProvided(file, ranges, d, pieces)
              && (before <= pieces ==> !AllProvided(file, ranges, d, before))
  {
    if before <= pieces {
      ProvidedMore(file, ranges, d, before, pieces);
    }
    hide file.Provided;
  }

  lemma StarvedPart<S, T>(torrent: Torrent, file: FileSpan, range: Range, since: int, earlier: int, o: Outcome<S>,
                          r: Outcome<T>)
    requires torrent.layout.Valid() && earlier <= since && !o.Ok? && r == o.Failure()
    ensures file.Starved(torrent, range, since, o) ==> file.Starved(torrent, range, earlier, r)
  {
    hide Covers;
  }
}
