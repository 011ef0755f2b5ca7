// The queue of bytes still to be sent on a connection (libathemecore/datastream.c:43-188).
module SendQueue {
  import opened Basics
  import opened ByteChunks

  // What a send() call does: it writes some of the bytes offered, has to be tried again later, or
  // finds the connection broken.
  datatype SendResult = Sent(n: nat) | Again | Broken

  class Sendq {
    // sendq_limit; 0 is no limit
    const limit: nat
    var chunks: seq<Chunk>
    // CF_DEAD, CF_SEND_EOF and CF_SEND_DEAD
    var dead: bool
    var sendEof: bool
    var sendDead: bool
    // the bytes sendq_add() took and those send() wrote
    ghost var accepted: seq<Byte>
    ghost var sent: seq<Byte>

    // Nothing is lost, doubled or reordered; the write end is shut down only with nothing queued
    // and nothing to come; a limit bounds what is queued.
    ghost predicate Valid()
      reads this
    {
      && WellFormed(chunks)
      && sent + Bytes(chunks) == accepted
      && (sendDead ==> sendEof && Bytes(chunks) == [])
      && (limit != 0 ==> |Bytes(chunks)| <= limit)
    }

    constructor (limit: nat)
      ensures Valid() && this.limit == limit && accepted == [] && !dead && !sendEof && !sendDead
    {
      this.limit := limit;
      chunks, dead, sendEof, sendDead, accepted, sent := [], false, false, false, [], [];
    }

    // sendq_nonempty(): looks at the first chunk only.
    method NonEmpty() returns (r: bool)
      requires Valid()
      ensures r <==> !sendDead && (sendEof || Bytes(chunks) != [])
    {
      HeadTells(chunks);
      if sendDead {
        return false;
      }
      if sendEof {
        return true;
      }
      if chunks == [] {
        return false;
      }
      return chunks[0].firstFree > chunks[0].firstUsed;
    }

    // sendq_add()
    method Add(buf: seq<Byte>)
      requires Valid()
      modifies this`chunks, this`dead, this`accepted
      ensures Valid()
      ensures old(dead) || sendEof || buf == [] ==> dead == old(dead) && accepted == old(accepted)
      ensures !old(dead) && !sendEof && buf != [] ==>
        (dead <==> limit != 0 && |old(chunks)| * SENDQSIZE + |buf| > limit)
        && accepted == if dead then old(accepted) else old(accepted) + buf
    {
      if dead || sendEof || buf == [] {
        return;
      }
      if limit != 0 && |chunks| * SENDQSIZE + |buf| > limit {
        dead := true;
        return;
      }
      BytesFit(chunks);
      DeadHasEof();
      hide WellFormed, Bytes;
      Store(buf);
      accepted := accepted + buf;
    }

    lemma DeadHasEof()
      requires Valid()
      ensures sendDead ==> sendEof
    {
    }

    // The copying done by sendq_add(): first into the last chunk, then into new ones.
    method Store(buf: seq<Byte>)
      requires WellFormed(chunks)
      modifies this`chunks
      ensures WellFormed(chunks) && Bytes(chunks) == old(Bytes(chunks)) + buf
    {
      hide WellFormed, Bytes;
      var pos, l := 0, 0;
      if chunks != [] {
        chunks, l := CopyIn(chunks, buf);
        pos := l;
      }
      while pos < |buf|
        invariant 0 <= pos <= |buf| && WellFormed(chunks)
        invariant pos < |buf| && chunks != [] ==> chunks[|chunks| - 1].firstFree == SENDQSIZE
        invariant Bytes(chunks) == old(Bytes(chunks)) + buf[..pos]
      {
        if chunks != [] {
          FullIsBusy(chunks);
        }
        chunks := AddChunk(chunks);
        chunks, l := CopyIn(chunks, buf[pos..]);
        assert buf[..pos] + buf[pos..][..l] == buf[..pos + l];
        pos := pos + l;
      }
      assert buf[..pos] == buf;
    }

    // sendq_add_eof()
    method AddEof()
      requires Valid()
      modifies this`sendEof
      ensures Valid() && sendEof == (old(sendEof) || !dead)
    {
      if dead || sendEof {
        return;
      }
      sendEof := true;
    }

    // sendq_flush(); results tells what the send() calls do, one after another.
    method Flush(results: seq<SendResult>)
      requires Valid()
      modifies this`chunks, this`dead, this`sendDead, this`sent
      ensures Valid() && old(sent) <= sent
      ensures sendDead <==> old(sendDead) || (sendEof && Bytes(chunks) == [])
      ensures dead && !old(dead) ==> Broken in results && Bytes(chunks) != []
      ensures (forall r <- results :: r.Sent? && r.n >= SENDQSIZE) && |results| >= |old(chunks)| ==> Bytes(chunks) == []
    {
      hide WellFormed, Bytes, Advance;
      var k, more := 0, chunks != [];
      HeadTells(chunks);
      while more
        invariant Valid() && old(sent) <= sent
        invariant sendDead == old(sendDead) && dead == old(dead)
        invariant if more then chunks != [] && k + |chunks| == |old(chunks)| else Bytes(chunks) == []
        decreases more, |chunks|
      {
        HeadTells(chunks);
        HeadIsGood(chunks);
        var sq := chunks[0];
        if sq.firstUsed == sq.firstFree {
          break;
        }
        var result := if k < |results| then results[k] else Again;
        k := k + 1;
        if !result.Sent? {
          if result.Broken? {
            dead := true;
          }
          return;
        }
        var left := sq.firstFree - sq.firstUsed;
        var l := if result.n < left then result.n else left;
        AdvanceTakes(chunks, l);
        AdvanceHead(chunks, l);
        sent := sent + sq.buf[sq.firstUsed..sq.firstUsed + l];
        more := |chunks| > 1;
        chunks := Advance(chunks, l);
        if l < left {
          return;
        }
        HeadTells(chunks);
      }
      if sendEof {
        sendDead := true;
      }
    }
  }
}
