// The queue of bytes received on a connection, and the handler that takes lines from it
// (libathemecore/datastream.c:196-369, libathemecore/packet.c:35-56).
module RecvQueue {
  import opened Basics
  import opened ByteChunks
  import opened LineStream

  // sizeof parsebuf - 1
  const LINE_MAX: nat := 1024

  // ---- what recvq_getline() takes from a list of chunks ----

  lemma BytesSplit(q: seq<Chunk>, k: nat)
    requires WellFormed(q) && k <= |q|
    ensures WellFormed(q[..k]) && WellFormed(q[k..]) && Bytes(q) == Bytes(q[..k]) + Bytes(q[k..])
  {
    hide Bytes;
    assert q == q[..k] + q[k..];
    BytesJoined(q[..k], q[k..]);
  }

  lemma BytesNext(q: seq<Chunk>, k: nat)
    requires WellFormed(q) && k < |q|
    ensures WellFormed(q[..k]) && WellFormed(q[..k + 1]) && Good(q[k]) && Bytes(q[..k + 1]) == Bytes(q[..k]) + Used(q[k])
  {
    assert q[..k + 1] == q[..k] + [q[k]];
    BytesOne(q[k]);
    BytesJoined(q[..k], [q[k]]);
  }

  ghost predicate ChunkEnd(q: seq<Chunk>, e: nat)
    requires WellFormed(q)
  {
    exists k :: 0 <= k <= |q| && |Bytes(q[..k])| == e
  }

  // The line ends with a chunk, but neither with the queue nor with the buffer.
  ghost predicate Overrun(q: seq<Chunk>, len: nat)
    requires WellFormed(q)
  {
    var e := Find(Bytes(q)) + 1;
    e < |Bytes(q)| && e < len && ChunkEnd(q, e)
  }

  // How many bytes recvq_getline() takes.
  ghost function LineLen(q: seq<Chunk>, len: nat): nat
    requires WellFormed(q)
  {
    var b := Bytes(q);
    if Overrun(q, len) then (if |b| < len then |b| else len) else PieceLen(b, len)
  }

  // What it takes is a line, or as much of one as fits, or nothing yet, exactly if no line overruns:
  // then and only then the bytes have no newline but at their end.
  lemma LineLenExact(q: seq<Chunk>, len: nat, p: seq<Byte>)
    requires WellFormed(q) && len > 0 && p <= Bytes(q) && |p| == LineLen(q, len)
    ensures p == [] || IsPiece(p, len) <==> !Overrun(q, len)
    ensures !Overrun(q, len) ==> p == Bytes(q)[..PieceLen(Bytes(q), len)]
    ensures Overrun(q, len) ==> |p| > PieceLen(Bytes(q), len) > 0
  {
    var b := Bytes(q);
    var n := Find(b);
    if Overrun(q, len) {
      assert p[n] == b[n] == NEWLINE && p[..|p| - 1][n] == p[n];
    } else if p != [] {
      PieceShape(b, len);
    }
  }

  // Newlines are in the last chunk only.
  ghost predicate NewlinesLast(q: seq<Chunk>)
    requires WellFormed(q)
  {
    forall i :: 0 <= i < |q| - 1 ==> NEWLINE !in Used(q[i])
  }

  lemma {:induction false} NoNewlineBefore(q: seq<Chunk>, k: nat)
    requires WellFormed(q) && NewlinesLast(q) && k < |q|
    ensures WellFormed(q[..k]) && NEWLINE !in Bytes(q[..k])
  {
    BytesSplit(q, k);
    if k > 0 {
      NoNewlineBefore(q, k - 1);
      BytesNext(q, k - 1);
    }
  }

  // Then no line overruns.
  lemma NoOverrun(q: seq<Chunk>, len: nat)
    requires WellFormed(q) && NewlinesLast(q)
    ensures !Overrun(q, len)
  {
    assert q[..|q|] == q;
    forall k | 0 <= k < |q| ensures WellFormed(q[..k]) && |Bytes(q[..k])| <= Find(Bytes(q)) {
      BytesSplit(q, k);
      NoNewlineBefore(q, k);
      FindJoined(Bytes(q[..k]), Bytes(q[k..]));
    }
  }

  // With a newline at the end of an earlier chunk it does take more than a line.
  lemma OverrunHappens(a: Chunk, b: Chunk)
    requires Busy(a) && Busy(b) && Used(a) == [NEWLINE] && |Used(b)| == 1
    ensures WellFormed([a, b]) && PieceLen(Bytes([a, b]), LINE_MAX) == 1 && LineLen([a, b], LINE_MAX) == 2
  {
    var q := [a, b];
    assert q[..1] == [a] && q[1..] == [b];
    BytesSplit(q, 1);
    BytesOne(a);
    BytesOne(b);
    FindIs(Bytes(q), 0);
    assert ChunkEnd(q, 1);
  }

  lemma FindJoined(a: seq<Byte>, b: seq<Byte>)
    requires NEWLINE !in a
    ensures Find(a + b) == |a| + Find(b)
  {
    var n := |a| + Find(b);
    assert (a + b)[..n] == a + b[..Find(b)];
    FindIs(a + b, n);
  }

  // What recv() does: it delivers some bytes (none when the other side closed the connection), has
  // to be tried again later, or finds the connection broken.
  datatype RecvResult = Data(bytes: seq<Byte>) | Again | Broken

  // The pieces taken so far are the first ones of the stream, and the rest of it is queued.
  ghost predicate Follows(received: seq<Byte>, pieces: seq<seq<Byte>>, queued: seq<Byte>, noNewline: bool,
                          parsed: seq<seq<Byte>>, bytesIn: nat) {
    && Pieces(received, LINE_MAX) == pieces + Pieces(queued, LINE_MAX)
    && Rest(received, LINE_MAX) == Rest(queued, LINE_MAX)
    && noNewline == LastUnfinished(pieces) && parsed == Lines(pieces) && bytesIn == |Flatten(pieces)|
  }

  method Strip(p: seq<Byte>) returns (line: seq<Byte>)
    requires p != []
    ensures line == Chomp(p)
    ensures forall text: seq<Byte> :: LineOf(p, text) ==> line == text
  {
    forall text: seq<Byte> | LineOf(p, text) ensures Chomp(p) == text {
      ChompedIsText(p, text);
    }
    var count := |p|;
    if p[count - 1] == NEWLINE {
      count := count - 1;
    }
    if count > 0 && p[count - 1] == RETURN {
      count := count - 1;
    }
    return p[..count];
  }

  // Some of the bytes that can be had arrived, at least one.
  ghost predicate Arrived(before: seq<Byte>, now: seq<Byte>, bytes: seq<Byte>) {
    exists n :: 0 < n <= |bytes| && n <= SENDQSIZE && now == before + bytes[..n]
  }

  class Recvq {
    var chunks: seq<Chunk>
    // CF_NONEWLINE
    var noNewline: bool
    // connection_close() was called
    var closed: bool
    // cnt.bin
    var bytesIn: nat
    // what parse() was called with
    var parsed: seq<seq<Byte>>
    // all bytes received, and the pieces recvq_getline() gave the handler
    ghost var received: seq<Byte>
    ghost var pieces: seq<seq<Byte>>

    ghost predicate Valid()
      reads `chunks
    {
      WellFormed(chunks)
    }

    ghost predicate OnTrack()
      reads `chunks, `noNewline, `bytesIn, `parsed, `received, `pieces
    {
      && Valid() && NewlinesLast(chunks)
      && Follows(received, pieces, Bytes(chunks), noNewline, parsed, bytesIn)
    }

    // No piece is left to be taken.
    ghost predicate Drained()
      reads `chunks, `noNewline, `bytesIn, `parsed, `received, `pieces
    {
      OnTrack() && PieceLen(Bytes(chunks), LINE_MAX) == 0
    }

    constructor ()
      ensures Drained() && !closed && received == [] && parsed == []
    {
      chunks, noNewline, closed, bytesIn, parsed, received, pieces := [], false, false, 0, [], [], [];
    }

    // recvq_length()
    method Length() returns (n: nat)
      requires WellFormed(chunks)
      ensures n == |Bytes(chunks)|
    {
      n := 0;
      var i := 0;
      while i < |chunks|
        invariant 0 <= i <= |chunks| && WellFormed(chunks[..i]) && n == |Bytes(chunks[..i])|
      {
        BytesNext(chunks, i);
        n := n + (chunks[i].firstFree - chunks[i].firstUsed);
        i := i + 1;
      }
      assert chunks[..i] == chunks;
    }

    // l bytes of the first chunk are taken; more tells whether there is another chunk to go on with.
    method Consume(l: nat) returns (p: seq<Byte>, more: bool)
      requires Valid() && Bytes(chunks) != [] && Good(chunks[0]) && l <= |Used(chunks[0])|
      modifies this`chunks
      ensures Valid() && p == Used(old(chunks)[0])[..l] && p + Bytes(chunks) == old(Bytes(chunks))
      ensures more <==> l == |Used(old(chunks)[0])| && |old(chunks)| > 1
      ensures more ==> chunks == old(chunks)[1..]
      ensures NewlinesLast(old(chunks)) ==> NewlinesLast(chunks)
      ensures l == |Used(old(chunks)[0])| && !more ==> Bytes(chunks) == []
    {
      AdvanceTakes(chunks, l);
      AdvanceHead(chunks, l);
      if NewlinesLast(chunks) {
        AdvanceNewlines(chunks, l);
      }
      var sq := chunks[0];
      p := sq.buf[sq.firstUsed..sq.firstUsed + l];
      more := sq.firstUsed + l == sq.firstFree && |chunks| > 1;
      chunks := Advance(chunks, l);
    }

    // recvq_get()
    method Get(len: nat) returns (p: seq<Byte>)
      requires Valid()
      modifies this`chunks
      ensures Valid() && p + Bytes(chunks) == old(Bytes(chunks))
      ensures |p| == len || (|p| < len && Bytes(chunks) == [])
      ensures NewlinesLast(old(chunks)) ==> NewlinesLast(chunks)
    {
      hide WellFormed, Bytes, Advance, NewlinesLast;
      p := [];
      var more := chunks != [];
      HeadTells(chunks);
      while more
        invariant Valid() && p + Bytes(chunks) == old(Bytes(chunks)) && |p| <= len
        invariant if more then chunks != [] else |p| == len || Bytes(chunks) == []
        invariant NewlinesLast(old(chunks)) ==> NewlinesLast(chunks)
        decreases more, |chunks|
      {
        HeadTells(chunks);
        HeadIsGood(chunks);
        var sq := chunks[0];
        if sq.firstUsed == sq.firstFree || len == |p| {
          break;
        }
        var l := sq.firstFree - sq.firstUsed;
        if l > len - |p| {
          l := len - |p|;
        }
        var bytes;
        bytes, more := Consume(l);
        p := p + bytes;
      }
    }

    // The first loop of recvq_getline(): looks for a newline, chunk by chunk, until there is one or
    // len bytes were seen. k is the chunk it stopped at, and at the place of the newline in it.
    method Scan(len: nat) returns (found: bool, k: nat, at: nat, l: nat)
      requires Valid()
      ensures found ==> k < |chunks| && Good(chunks[k]) && at < |Used(chunks[k])|
      ensures found ==> WellFormed(chunks[..k]) && Find(Bytes(chunks)) == |Bytes(chunks[..k])| + at < |Bytes(chunks)|
      ensures !found ==> l <= Find(Bytes(chunks)) && (l < len ==> l == |Bytes(chunks)|)
    {
      found, k, at, l := false, 0, 0, 0;
      var i := 0;
      while i < |chunks|
        invariant 0 <= i <= |chunks| && !found && WellFormed(chunks[..i])
        invariant NEWLINE !in Bytes(chunks[..i]) && l == |Bytes(chunks[..i])|
      {
        k := i;
        BytesNext(chunks, i);
        BytesSplit(chunks, i + 1);
        var used := Used(chunks[i]);
        l := l + |used|;
        at := Find(used);
        found := at < |used|;
        FoundHere(Bytes(chunks[..i]), used, Bytes(chunks[i + 1..]));
        if found || l >= len {
          return;
        }
        i := i + 1;
      }
      assert chunks[..i] == chunks;
      FindJoined(Bytes(chunks), []);
      assert Bytes(chunks) + [] == Bytes(chunks);
    }

    // recvq_getline()
    method GetLine(len: nat) returns (p: seq<Byte>)
      requires Valid() && len > 0
      modifies this`chunks, this`noNewline
      ensures Valid() && p + Bytes(chunks) == old(Bytes(chunks)) && |p| == LineLen(old(chunks), len)
      ensures p == [] || IsPiece(p, len) <==> !Overrun(old(chunks), len)
      ensures p == [] ==> chunks == old(chunks) && noNewline == old(noNewline)
      ensures p != [] ==> StopsAt(old(chunks), len, |p|, noNewline)
      ensures NewlinesLast(old(chunks)) ==> NewlinesLast(chunks)
    {
      ghost var q := chunks;
      var found, k, at, l := Scan(len);
      p := [];
      if !found && l < len {
        NothingYet(q, len);
        LineLenExact(q, len, p);
        return;
      }
      noNewline := true;
      p := TakeLine(len, found, k, at);
      SomethingTaken(q, len, found, k, at);
      LineLenExact(q, len, p);
    }

    // The second loop of recvq_getline().
    method TakeLine(len: nat, found: bool, k: nat, at: nat) returns (p: seq<Byte>)
      requires Valid() && Scanned(chunks, len, found, k, at) && noNewline && len > 0
      modifies this`chunks, this`noNewline
      ensures Valid() && p + Bytes(chunks) == old(Bytes(chunks))
      ensures StopsAt(old(chunks), len, |p|, noNewline)
      ensures NewlinesLast(old(chunks)) ==> NewlinesLast(chunks)
    {
      hide Bytes, WellFormed, NewlinesLast, StopsAt, AtChunk, Scanned;
      ghost var q := chunks;
      AtFirst(q, len, found, k, at);
      p := [];
      var more, i := chunks != [], 0;
      while more
        invariant Valid() && p + Bytes(chunks) == Bytes(q) && (NewlinesLast(q) ==> NewlinesLast(chunks))
        invariant if more then i < |q| && chunks == q[i..] && AtChunk(q, len, found, k, i, |p|, noNewline) else StopsAt(q, len, |p|, noNewline)
        decreases more, |chunks|
      {
        HeadTells(chunks);
        HeadIsGood(chunks);
        InBounds(q, len, found, k, i, |p|, noNewline);
        var sq := chunks[0];
        if sq.firstUsed == sq.firstFree || len == |p| {
          StopsFull(q, len, found, k, at, i, |p|, noNewline);
          return;
        }
        var l := sq.firstFree - sq.firstUsed;
        if l > len - |p| {
          l := len - |p|;
        }
        ghost var before := noNewline;
        if i == k && found && l >= at + 1 {
          noNewline := false;
          l := at + 1;
        }
        TakesChunk(q, len, found, k, at, i, |p|, before, l, noNewline);
        var bytes;
        bytes, more := Consume(l);
        p := p + bytes;
        i := i + 1;
      }
    }

    // With newlines in the last chunk only, what recvq_getline() gives is a piece of the stream.
    method GetPiece() returns (p: seq<Byte>)
      requires Valid() && NewlinesLast(chunks)
      modifies this`chunks, this`noNewline
      ensures Valid() && NewlinesLast(chunks) && |p| == PieceLen(old(Bytes(chunks)), LINE_MAX)
      ensures old(Bytes(chunks)) == p + Bytes(chunks) && Bytes(chunks) == old(Bytes(chunks))[|p|..]
      ensures p == [] ==> noNewline == old(noNewline) && Bytes(chunks) == old(Bytes(chunks))
      ensures p != [] ==> var b := old(Bytes(chunks)); noNewline == (Find(b) >= |b| || Find(b) >= LINE_MAX)
    {
      NoOverrun(chunks, LINE_MAX);
      assert LineLen(chunks, LINE_MAX) == PieceLen(Bytes(chunks), LINE_MAX);
      hide Bytes, WellFormed, NewlinesLast, LineLen, Overrun;
      p := GetLine(LINE_MAX);
    }

    // irc_recvq_handler(): takes a piece, and parses it unless it is the rest of a line too long.
    method Handle()
      requires OnTrack()
      modifies this`chunks, this`noNewline, this`bytesIn, this`parsed, this`pieces
      ensures OnTrack() && Bytes(chunks) == old(Bytes(chunks))[old(PieceLen(Bytes(chunks), LINE_MAX))..]
    {
      hide Bytes, WellFormed, NewlinesLast, Find, Follows, Chomp, PieceLen;
      ghost var b := Bytes(chunks);
      var wasNoNewline := noNewline;
      var p := GetPiece();
      if p == [] {
        return;
      }
      FollowsTaken(received, pieces, b, p, Bytes(chunks), wasNoNewline, noNewline, parsed, bytesIn);
      pieces := pieces + [p];
      bytesIn := bytesIn + |p|;
      if wasNoNewline {
        return;
      }
      var line := Strip(p);
      parsed := parsed + [line];
    }

    // The loop at the end of recvq_put(): the handler is called until it consumes nothing.
    method Drain()
      requires OnTrack()
      modifies this`chunks, this`noNewline, this`bytesIn, this`parsed, this`pieces
      ensures Drained()
    {
      hide Bytes, WellFormed, NewlinesLast, Find, Follows;
      var l := Length();
      var again := true;
      while again
        invariant OnTrack() && l == |Bytes(chunks)|
        invariant !again ==> PieceLen(Bytes(chunks), LINE_MAX) == 0
        decreases again, l
      {
        Handle();
        var ll := l;
        l := Length();
        again := ll != l && l != 0;
      }
    }

    // The last chunk gets a successor when it is full.
    method MakeRoom()
      requires Drained()
      modifies this`chunks
      ensures Drained() && OnTrack() && chunks != [] && chunks[|chunks| - 1].firstFree < SENDQSIZE
    {
      hide Follows;
      if chunks == [] || chunks[|chunks| - 1].firstFree == SENDQSIZE {
        NoneQueued(chunks);
        var more := AddChunk(chunks);
        assert forall i :: 0 <= i < |chunks| ==> more[i] == more[..|chunks|][i];
        chunks := more;
      } else {
        LastChunkFits(chunks);
      }
    }

    // recv() writes behind the bytes of the last chunk.
    method Receive(bytes: seq<Byte>)
      requires Drained() && chunks != [] && chunks[|chunks| - 1].firstFree + |bytes| <= SENDQSIZE
      modifies this`chunks, this`received
      ensures OnTrack() && received == old(received) + bytes
    {
      FollowsReceived(received, pieces, Bytes(chunks), noNewline, parsed, bytesIn, bytes);
      hide Follows, PieceLen;
      ghost var q := chunks;
      var l;
      chunks, l := CopyIn(chunks, bytes);
      assert forall i :: 0 <= i < |q| - 1 ==> chunks[i] == chunks[..|q| - 1][i] == q[i];
      assert bytes[..l] == bytes;
      received := received + bytes;
    }

    // recvq_put(); result is what recv() does, and dead says whether the connection is marked dead
    // or its write end shut down.
    method Put(dead: bool, result: RecvResult)
      requires Drained() && !closed
      modifies this
      ensures Drained()
      ensures closed <==> dead || result == Broken || result == Data([])
      ensures closed || result == Again ==> received == old(received)
      ensures !closed && result.Data? ==> Arrived(old(received), received, result.bytes)
    {
      hide *;
      if dead {
        closed := true;
        return;
      }
      MakeRoom();
      if result == Broken || result == Data([]) {
        closed := true;
        return;
      }
      if result.Data? {
        ReceiveSome(result.bytes);
      }
      Drain();
    }

    // recv() takes what fits into the last chunk.
    method ReceiveSome(bytes: seq<Byte>)
      requires Drained() && chunks != [] && chunks[|chunks| - 1].firstFree < SENDQSIZE && bytes != []
      modifies this`chunks, this`received
      ensures OnTrack() && Arrived(old(received), received, bytes)
    {
      hide WellFormed, Bytes, NewlinesLast, PieceLen, Follows;
      var l := SENDQSIZE - chunks[|chunks| - 1].firstFree;
      if l > |bytes| {
        l := |bytes|;
      }
      Receive(bytes[..l]);
    }
  }

  // Nothing is left to be taken only if no newline is queued.
  lemma NoneQueued(q: seq<Chunk>)
    requires WellFormed(q) && PieceLen(Bytes(q), LINE_MAX) == 0
    ensures forall i :: 0 <= i < |q| ==> NEWLINE !in Used(q[i])
    ensures NEWLINE !in Bytes(q) && |Bytes(q)| < LINE_MAX
  {
    var b := Bytes(q);
    assert b[..Find(b)] == b;
    forall i | 0 <= i < |q| ensures NEWLINE !in Used(q[i]) {
      BytesNext(q, i);
      BytesSplit(q, i + 1);
      assert forall x <- Used(q[i]) :: x in Bytes(q[..i + 1]);
      assert forall x <- Bytes(q[..i + 1]) :: x in b;
    }
  }

  lemma LastChunkFits(q: seq<Chunk>)
    requires WellFormed(q) && q != []
    ensures q[|q| - 1].firstFree <= SENDQSIZE
  {
  }

  // A piece is taken from the queue, and parsed or not.
  lemma FollowsTaken(received: seq<Byte>, pieces: seq<seq<Byte>>, b: seq<Byte>, p: seq<Byte>, rest: seq<Byte>,
                     before: bool, after: bool, parsed: seq<seq<Byte>>, bytesIn: nat)
    requires Follows(received, pieces, b, before, parsed, bytesIn)
    requires b == p + rest && p != [] && |p| == PieceLen(b, LINE_MAX) && after == (Find(b) >= |b| || Find(b) >= LINE_MAX)
    ensures Follows(received, pieces + [p], rest, after, if before then parsed else parsed + [Chomp(p)], bytesIn + |p|)
  {
    PiecesOne(b, p, rest);
    TakenUnfinished(b, p, LINE_MAX);
    FlattenMore(pieces, p);
    LinesMore(pieces, p);
    hide Pieces, Rest, Lines, Flatten, PieceLen, Find, Chomp, Unfinished;
    assert pieces + ([p] + Pieces(rest, LINE_MAX)) == (pieces + [p]) + Pieces(rest, LINE_MAX);
  }

  lemma PiecesOne(b: seq<Byte>, p: seq<Byte>, rest: seq<Byte>)
    requires b == p + rest && p != [] && |p| == PieceLen(b, LINE_MAX)
    ensures Pieces(b, LINE_MAX) == [p] + Pieces(rest, LINE_MAX) && Rest(b, LINE_MAX) == Rest(rest, LINE_MAX)
  {
    assert b[..|p|] == p && b[|p|..] == rest;
  }

  lemma LinesMore(pieces: seq<seq<Byte>>, p: seq<Byte>)
    ensures Lines(pieces + [p]) == Lines(pieces) + if LastUnfinished(pieces) then [] else [Chomp(p)]
    ensures LastUnfinished(pieces + [p]) == Unfinished(p)
  {
    assert (pieces + [p])[..|pieces|] == pieces;
  }

  lemma FollowsReceived(received: seq<Byte>, pieces: seq<seq<Byte>>, b: seq<Byte>, noNewline: bool,
                        parsed: seq<seq<Byte>>, bytesIn: nat, bytes: seq<Byte>)
    requires Follows(received, pieces, b, noNewline, parsed, bytesIn) && PieceLen(b, LINE_MAX) == 0
    ensures Follows(received + bytes, pieces, b + bytes, noNewline, parsed, bytesIn)
  {
    PiecesSplit(received, bytes, LINE_MAX);
    assert pieces + [] == pieces;
  }

  lemma TakenUnfinished(b: seq<Byte>, p: seq<Byte>, max: nat)
    requires p != [] && |p| == PieceLen(b, max) && p <= b
    ensures Unfinished(p) == (Find(b) >= |b| || Find(b) >= max)
  {
    var n := Find(b);
    assert p[|p| - 1] == b[|p| - 1];
    assert forall i :: 0 <= i < n ==> b[i] in b[..n];
  }

  // Where the second loop of recvq_getline() stops after n bytes.
  ghost predicate StopsAt(q: seq<Chunk>, len: nat, n: nat, noNewline: bool)
    requires WellFormed(q)
  {
    n == LineLen(q, len) && noNewline == (Find(Bytes(q)) >= |Bytes(q)| || Find(Bytes(q)) >= len)
  }

  // The state of that loop when it comes to chunk j, having taken n bytes: the newline, if there is
  // one, is in chunk k.
  ghost predicate AtChunk(q: seq<Chunk>, len: nat, found: bool, k: nat, j: nat, n: nat, noNewline: bool)
    requires WellFormed(q)
  {
    && j <= |q| && n == |Bytes(q[..j])| <= len
    && noNewline == !(found && j > k)
    && (found && j > k ==> Find(Bytes(q)) < len && k < |q| && |Bytes(q[..k + 1])| == Find(Bytes(q)) + 1)
  }

  ghost predicate Scanned(q: seq<Chunk>, len: nat, found: bool, k: nat, at: nat)
    requires WellFormed(q)
  {
    if found then
      && k < |q| && Good(q[k]) && at < |Used(q[k])|
      && Find(Bytes(q)) == |Bytes(q[..k])| + at < |Bytes(q)|
    else len <= Find(Bytes(q))
  }

  lemma {:induction false} BytesGrow(q: seq<Chunk>, i: nat, j: nat)
    requires WellFormed(q) && i <= j <= |q|
    ensures |Bytes(q[..i])| <= |Bytes(q[..j])| <= |Bytes(q)|
  {
    BytesSplit(q, j);
    BytesSplit(q[..j], i);
    assert q[..j][..i] == q[..i];
  }

  // It stops at the end of the buffer or of the queue.
  lemma StopsFull(q: seq<Chunk>, len: nat, found: bool, k: nat, at: nat, j: nat, n: nat, noNewline: bool)
    requires WellFormed(q) && Scanned(q, len, found, k, at) && AtChunk(q, len, found, k, j, n, noNewline)
    requires n == len || n == |Bytes(q)|
    ensures StopsAt(q, len, n, noNewline)
  {
    BytesGrow(q, j, |q|);
    assert q[..|q|] == q;
    if found {
      if j <= k {
        BytesGrow(q, j, k);
      } else {
        BytesGrow(q, k + 1, j);
        assert ChunkEnd(q, Find(Bytes(q)) + 1);
      }
    }
  }

  // The newlines before the first of a part are none.
  lemma FoundHere(a: seq<Byte>, b: seq<Byte>, c: seq<Byte>)
    requires NEWLINE !in a
    ensures Find(b) < |b| ==> Find(a + b + c) == |a| + Find(b)
    ensures Find(b) == |b| ==> NEWLINE !in a + b && |a + b| <= Find(a + b + c)
  {
    assert a + b + c == a + (b + c);
    FindJoined(a, b + c);
    if Find(b) < |b| {
      assert (b + c)[..Find(b)] == b[..Find(b)];
      FindIs(b + c, Find(b));
    } else {
      assert b[..Find(b)] == b;
      FindJoined(b, c);
    }
  }

  lemma AdvanceNewlines(q: seq<Chunk>, l: nat)
    requires WellFormed(q) && NewlinesLast(q) && q != [] && q[0].firstUsed + l <= q[0].firstFree
    ensures WellFormed(Advance(q, l)) && NewlinesLast(Advance(q, l))
  {
    var r := Advance(q, l);
    AdvanceTakes(q, l);
    if |r| == |q| && |q| > 1 {
      assert Used(r[0]) == Used(q[0])[l..];
    }
  }

  lemma NothingYet(q: seq<Chunk>, len: nat)
    requires WellFormed(q) && Find(Bytes(q)) == |Bytes(q)| < len
    ensures LineLen(q, len) == 0
  {
  }

  lemma SomethingTaken(q: seq<Chunk>, len: nat, found: bool, k: nat, at: nat)
    requires WellFormed(q) && Scanned(q, len, found, k, at) && len > 0
    ensures LineLen(q, len) > 0
  {
  }

  lemma AtFirst(q: seq<Chunk>, len: nat, found: bool, k: nat, at: nat)
    requires WellFormed(q) && Scanned(q, len, found, k, at) && len > 0
    ensures q != [] && AtChunk(q, len, found, k, 0, 0, true)
  {
    assert q[..0] == [];
  }

  lemma InBounds(q: seq<Chunk>, len: nat, found: bool, k: nat, j: nat, n: nat, noNewline: bool)
    requires WellFormed(q) && AtChunk(q, len, found, k, j, n, noNewline)
    ensures n <= len
  {
  }

  // What one turn of the loop takes from chunk j.
  ghost predicate Takes(q: seq<Chunk>, len: nat, found: bool, k: nat, at: nat, j: nat, n: nat, before: bool, l: nat, after: bool) {
    && j < |q| && Busy(q[j]) && n < len
    && var room := if |Used(q[j])| > len - n then len - n else |Used(q[j])|;
    if j == k && found && room >= at + 1 then l == at + 1 && !after else l == room && after == before
  }

  lemma TakesWhole(q: seq<Chunk>, len: nat, found: bool, k: nat, at: nat, j: nat, n: nat, before: bool, l: nat, after: bool)
    requires WellFormed(q) && Scanned(q, len, found, k, at) && AtChunk(q, len, found, k, j, n, before)
    requires Takes(q, len, found, k, at, j, n, before, l, after) && l == |Used(q[j])|
    ensures AtChunk(q, len, found, k, j + 1, n + l, after)
  {
    BytesNext(q, j);
  }

  // No chunk ends inside chunk j.
  lemma InsideChunk(q: seq<Chunk>, j: nat, e: nat)
    requires WellFormed(q) && j < |q| && |Bytes(q[..j])| < e < |Bytes(q[..j + 1])|
    ensures !ChunkEnd(q, e)
  {
    forall k | 0 <= k <= |q| ensures |Bytes(q[..k])| != e {
      if k <= j {
        BytesSplit(q[..j], k);
        assert q[..j][..k] == q[..k];
      } else {
        BytesSplit(q[..k], j + 1);
        assert q[..k][..j + 1] == q[..j + 1];
      }
    }
  }

  lemma StopsInside(q: seq<Chunk>, len: nat, found: bool, k: nat, at: nat, j: nat, n: nat, before: bool, l: nat, after: bool)
    requires WellFormed(q) && Scanned(q, len, found, k, at) && AtChunk(q, len, found, k, j, n, before)
    requires Takes(q, len, found, k, at, j, n, before, l, after) && l < |Used(q[j])|
    ensures StopsAt(q, len, n + l, after)
  {
    BytesNext(q, j);
    BytesGrow(q, j + 1, |q|);
    if found && j == k && l == at + 1 && !after {
      InsideChunk(q, j, n + l);
    } else if found && j < k {
      BytesGrow(q, j + 1, k);
    } else if found && j > k {
      assert ChunkEnd(q, Find(Bytes(q)) + 1);
      BytesGrow(q, k + 1, j);
    }
  }

  // One chunk more: the loop goes on with the next, or stops.
  lemma TakesChunk(q: seq<Chunk>, len: nat, found: bool, k: nat, at: nat, j: nat, n: nat, before: bool, l: nat, after: bool)
    requires WellFormed(q) && Scanned(q, len, found, k, at) && AtChunk(q, len, found, k, j, n, before)
    requires Takes(q, len, found, k, at, j, n, before, l, after)
    ensures l == |Used(q[j])| && j + 1 < |q| ==> AtChunk(q, len, found, k, j + 1, n + l, after)
    ensures l < |Used(q[j])| || j + 1 == |q| ==> StopsAt(q, len, n + l, after)
  {
    if l == |Used(q[j])| {
      TakesWhole(q, len, found, k, at, j, n, before, l, after);
      if j + 1 == |q| {
        assert q[..j + 1] == q;
        StopsFull(q, len, found, k, at, j + 1, n + l, after);
      }
    } else {
      StopsInside(q, len, found, k, at, j, n, before, l, after);
    }
  }

  // However the bytes arrived: what was parsed are the lines of all that was received, without a
  // newline queued; delivered and queued bytes are what was received.
  lemma ParsedAreTheLines(r: Recvq)
    requires r.Drained()
    ensures r.parsed == Lines(Pieces(r.received, LINE_MAX)) && Bytes(r.chunks) == Rest(r.received, LINE_MAX)
    ensures NEWLINE !in Bytes(r.chunks) && |Bytes(r.chunks)| < LINE_MAX
    ensures r.pieces == Pieces(r.received, LINE_MAX) && Flatten(r.pieces) + Bytes(r.chunks) == r.received
    ensures r.bytesIn + |Bytes(r.chunks)| == |r.received|
  {
    NoneQueued(r.chunks);
    PiecesCover(r.received, LINE_MAX);
    assert r.pieces + [] == r.pieces;
  }

  // However the bytes of lines arrived: the texts of the lines were parsed, in order.
  lemma SentAreParsed(r: Recvq, ps: seq<seq<Byte>>, texts: seq<seq<Byte>>)
    requires r.Drained() && LinesOf(ps, texts, LINE_MAX) && r.received == Flatten(ps)
    ensures r.parsed == texts && Bytes(r.chunks) == []
  {
    ParsedAreTheLines(r);
    LinesAreRead(ps, texts, LINE_MAX);
  }
}
