// Byte queues as lists of fixed-size chunks, and the bytes they stand for
// (libathemecore/datastream.c:28-41).
module ByteChunks {
  import opened Basics

  const SENDQSIZE: nat := 4096 - 40

  // struct sendq: bytes firstUsed up to firstFree of buf are in use.
  datatype Chunk = Chunk(buf: seq<Byte>, firstUsed: nat, firstFree: nat)

  predicate Good(c: Chunk) {
    |c.buf| == SENDQSIZE && c.firstUsed <= c.firstFree <= SENDQSIZE
  }

  predicate Busy(c: Chunk) {
    Good(c) && c.firstUsed < c.firstFree
  }

  // A chunk without bytes has been reset, and only the last chunk of a list may have none.
  predicate WellFormed(q: seq<Chunk>) {
    forall i :: 0 <= i < |q| ==>
      Busy(q[i]) || (Good(q[i]) && i == |q| - 1 && q[i].firstFree == 0)
  }

  function Used(c: Chunk): seq<Byte>
    requires Good(c)
  {
    c.buf[c.firstUsed..c.firstFree]
  }

  // The bytes a list of chunks stands for.
  function Bytes(q: seq<Chunk>): seq<Byte>
    requires WellFormed(q)
  {
    if q == [] then [] else Used(q[0]) + Bytes(q[1..])
  }

  lemma {:induction false} BytesJoined(a: seq<Chunk>, b: seq<Chunk>)
    requires WellFormed(a) && WellFormed(b) && WellFormed(a + b)
    ensures Bytes(a + b) == Bytes(a) + Bytes(b)
  {
    if a == [] {
      assert a + b == b;
    } else {
      assert (a + b)[1..] == a[1..] + b;
      BytesJoined(a[1..], b);
    }
  }

  lemma BytesOne(c: Chunk)
    requires Good(c) && (Busy(c) || c.firstFree == 0)
    ensures WellFormed([c]) && Bytes([c]) == Used(c)
  {
    assert Bytes([c]) == Used(c) + Bytes([]);
  }

  lemma {:induction false} BytesFit(q: seq<Chunk>)
    requires WellFormed(q)
    ensures |Bytes(q)| <= |q| * SENDQSIZE
  {
    if q != [] {
      BytesFit(q[1..]);
    }
  }

  // A list whose first chunk has no bytes has none at all.
  lemma HeadTells(q: seq<Chunk>)
    requires WellFormed(q)
    ensures Bytes(q) == [] <==> q == [] || q[0].firstFree == q[0].firstUsed
  {
    if |q| == 1 {
      BytesOne(q[0]);
    }
  }

  // ---- taking bytes from the first chunk ----

  // The list after l bytes of the first chunk were used up: an empty chunk goes, but the last is
  // kept and reset.
  function Advance(q: seq<Chunk>, l: nat): seq<Chunk>
    requires q != [] && q[0].firstUsed + l <= q[0].firstFree
  {
    if q[0].firstUsed + l < q[0].firstFree then q[0 := q[0].(firstUsed := q[0].firstUsed + l)]
    else if |q| > 1 then q[1..]
    else [q[0].(firstUsed := 0, firstFree := 0)]
  }

  lemma AdvanceTakes(q: seq<Chunk>, l: nat)
    requires WellFormed(q) && q != [] && Good(q[0]) && q[0].firstUsed + l <= q[0].firstFree
    ensures WellFormed(Advance(q, l)) && l <= |Bytes(q)| && Bytes(Advance(q, l)) == Bytes(q)[l..]
    ensures q[0].buf[q[0].firstUsed..q[0].firstUsed + l] == Bytes(q)[..l]
  {
    var r, head := Advance(q, l), Used(q[0]);
    assert head[..l] == q[0].buf[q[0].firstUsed..q[0].firstUsed + l];
    if q[0].firstUsed + l < q[0].firstFree {
      assert r[1..] == q[1..] && Used(r[0]) == head[l..];
    } else if |q| == 1 {
      BytesOne(q[0]);
      BytesOne(r[0]);
    }
  }

  // ---- putting bytes into the last chunk ----

  // A new empty chunk at the end.
  method AddChunk(q: seq<Chunk>) returns (r: seq<Chunk>)
    requires WellFormed(q) && (q != [] ==> Busy(q[|q| - 1]))
    ensures WellFormed(r) && |r| == |q| + 1 && r[..|q|] == q && r[|q|].firstUsed == r[|q|].firstFree == 0
    ensures Bytes(r) == Bytes(q)
  {
    var c := Chunk(seq(SENDQSIZE, _ => 0), 0, 0);
    r := q + [c];
    BytesOne(c);
    BytesJoined(q, [c]);
  }

  // As many of the bytes as fit are copied behind those of the last chunk.
  method CopyIn(q: seq<Chunk>, bytes: seq<Byte>) returns (r: seq<Chunk>, l: nat)
    requires WellFormed(q) && q != []
    ensures WellFormed(r) && |r| == |q| && r[..|q| - 1] == q[..|q| - 1]
    ensures r[|q| - 1].firstFree == q[|q| - 1].firstFree + l <= SENDQSIZE
    ensures l == |bytes| || (l < |bytes| && r[|q| - 1].firstFree == SENDQSIZE)
    ensures Bytes(r) == Bytes(q) + bytes[..l]
  {
    var n := |q| - 1;
    var sq := q[n];
    l := SENDQSIZE - sq.firstFree;
    if l > |bytes| {
      l := |bytes|;
    }
    var c := Chunk(sq.buf[..sq.firstFree] + bytes[..l] + sq.buf[sq.firstFree + l..], sq.firstUsed, sq.firstFree + l);
    assert Used(c) == Used(sq) + bytes[..l];
    r := q[n := c];
    LastReplaced(q, c);
  }

  lemma LastReplaced(q: seq<Chunk>, c: Chunk)
    requires WellFormed(q) && q != [] && Good(q[|q| - 1]) && Good(c) && WellFormed([c]) && |Used(q[|q| - 1])| <= |Used(c)|
    requires Used(c)[..|Used(q[|q| - 1])|] == Used(q[|q| - 1])
    ensures WellFormed(q[|q| - 1 := c]) && Bytes(q[|q| - 1 := c]) == Bytes(q) + Used(c)[|Used(q[|q| - 1])|..]
  {
    var n := |q| - 1;
    var r := q[n := c];
    assert q == q[..n] + [q[n]] && r == q[..n] + [c];
    BytesJoined(q[..n], [q[n]]);
    BytesJoined(q[..n], [c]);
    BytesOne(q[n]);
    BytesOne(c);
  }

  lemma FullIsBusy(q: seq<Chunk>)
    requires WellFormed(q) && q != [] && q[|q| - 1].firstFree == SENDQSIZE
    ensures Busy(q[|q| - 1])
  {
  }

  lemma HeadIsGood(q: seq<Chunk>)
    requires WellFormed(q) && q != []
    ensures Good(q[0])
  {
  }

  lemma AdvanceHead(q: seq<Chunk>, l: nat)
    requires WellFormed(q) && Bytes(q) != [] && q[0].firstUsed + l <= q[0].firstFree
    ensures if q[0].firstUsed + l < q[0].firstFree then Bytes(Advance(q, l)) != [] && |Advance(q, l)| == |q|
      else if |q| > 1 then |Advance(q, l)| == |q| - 1 else Bytes(Advance(q, l)) == []
  {
    var r := Advance(q, l);
    AdvanceTakes(q, l);
    HeadTells(r);
  }
}
