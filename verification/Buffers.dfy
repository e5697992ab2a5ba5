/**
  rdbuf.c: a chain of buffers as one byte sequence. Lengths are 32 bits wide: the chain's counter
  is the length of its contents modulo 2^32.
 */
module Buffers {
  import opened Basics

  const WIDTH: nat := 0x1_0000_0000

  /** Arithmetic on a uint32_t. */
  function Wrap(n: int): nat {
    n % WIDTH
  }

  lemma WrapAdds(a: int, b: int)
    ensures Wrap(Wrap(a) + b) == Wrap(a + b) && Wrap(Wrap(a) - b) == Wrap(a - b)
  {
  }

  /** sizeof(rd_buf_t) with 8-byte pointers, the least capacity of a copied buffer. */
  const BUF_SIZE: nat := 48

  // ---------- Chunks of bytes ----------

  function Flat(chunks: seq<seq<Byte>>): seq<Byte> {
    if chunks == [] then [] else Flat(chunks[..|chunks| - 1]) + chunks[|chunks| - 1]
  }

  lemma FlatSnoc(chunks: seq<seq<Byte>>, c: seq<Byte>)
    ensures Flat(chunks + [c]) == Flat(chunks) + c
  {
    assert (chunks + [c])[..|chunks|] == chunks;
  }

  lemma {:induction false} FlatConcat(a: seq<seq<Byte>>, b: seq<seq<Byte>>)
    ensures Flat(a + b) == Flat(a) + Flat(b)
    decreases |b|
  {
    hide Flat;
    if b == [] {
      assert a + b == a;
      FlatNone();
    } else {
      var m := |b| - 1;
      FlatConcat(a, b[..m]);
      assert a + b == (a + b[..m]) + [b[m]] && b == b[..m] + [b[m]];
      FlatSnoc(a + b[..m], b[m]);
      FlatSnoc(b[..m], b[m]);
    }
  }

  lemma Nothing()
    ensures Wrap(0) == 0 && Flat(Chunks([])) == []
  {
  }

  lemma FlatNone()
    ensures Flat([]) == []
  {
  }

  lemma FlatCons(c: seq<Byte>, rest: seq<seq<Byte>>)
    ensures Flat([c] + rest) == c + Flat(rest)
  {
    FlatSnoc([], c);
    assert [] + [c] == [c];
    FlatConcat([c], rest);
  }

  lemma FlatLast(chunks: seq<seq<Byte>>, more: seq<Byte>)
    requires chunks != []
    ensures var m := |chunks| - 1; Flat(chunks[m := chunks[m] + more]) == Flat(chunks) + more
  {
    var m := |chunks| - 1;
    assert chunks[m := chunks[m] + more] == chunks[..m] + [chunks[m] + more];
    FlatSnoc(chunks[..m], chunks[m] + more);
  }

  // ---------- The general serializer loop ----------

  /** Answers of the writer, one for each call: bytes accepted, 0 to stop, -1 for an error. */
  predicate Answers(chunks: seq<seq<Byte>>, answers: seq<int>) {
    chunks == [] ||
    if chunks[0] == [] then Answers(chunks[1..], answers)
    else answers != [] && -1 <= answers[0] <= |chunks[0]| && Answers(chunks[1..], answers[1..])
  }

  /** What the writer has accepted when the loop ends, and what the loop returns. */
  function Serial(chunks: seq<seq<Byte>>, answers: seq<int>): (r: (seq<Byte>, int))
    requires Answers(chunks, answers)
    ensures r.1 >= -1
  {
    if chunks == [] then ([], 0)
    else if chunks[0] == [] then Serial(chunks[1..], answers)
    else if answers[0] == -1 then ([], -1)
    else if answers[0] == 0 then ([], 0)
    else
      var (out, ret) := Serial(chunks[1..], answers[1..]);
      (chunks[0][..answers[0]] + out, if ret == -1 then -1 else answers[0] + ret)
  }

  /** Every answer for a chunk with bytes in it is the chunk's length. */
  predicate TakesAll(chunks: seq<seq<Byte>>, answers: seq<int>)
    requires Answers(chunks, answers)
  {
    chunks == [] ||
    if chunks[0] == [] then TakesAll(chunks[1..], answers)
    else answers[0] == |chunks[0]| && TakesAll(chunks[1..], answers[1..])
  }

  lemma {:induction false} FullLengthIff(chunks: seq<seq<Byte>>, answers: seq<int>)
    requires Answers(chunks, answers)
    ensures var (out, ret) := Serial(chunks, answers);
      && |out| <= |Flat(chunks)| && (ret != -1 ==> |out| == ret)
      && (TakesAll(chunks, answers) ==> out == Flat(chunks) && ret == |Flat(chunks)|)
      && (|out| == |Flat(chunks)| ==> TakesAll(chunks, answers))
    decreases |chunks|
  {
    if chunks != [] {
      var c, rest := chunks[0], chunks[1..];
      assert chunks == [c] + rest;
      FlatCons(c, rest);
      if c == [] {
        FullLengthIff(rest, answers);
        assert c + Flat(rest) == Flat(rest);
      } else {
        FullLengthIff(rest, answers[1..]);
        assert c[..|c|] == c;
      }
    }
  }

  /** The chunks that the writer is called for. */
  function Calls(chunks: seq<seq<Byte>>): seq<seq<Byte>> {
    if chunks == [] then [] else if chunks[0] == [] then Calls(chunks[1..]) else [chunks[0]] + Calls(chunks[1..])
  }

  /** What is accepted in the first k calls. */
  function Accepted(calls: seq<seq<Byte>>, answers: seq<int>, k: nat): seq<seq<Byte>>
    requires k <= |calls| && k <= |answers| && forall i :: 0 <= i < k ==> 0 <= answers[i] <= |calls[i]|
  {
    seq(k, i requires 0 <= i < k => calls[i][..answers[i]])
  }

  lemma {:induction false} AnswersMean(chunks: seq<seq<Byte>>, answers: seq<int>)
    requires Answers(chunks, answers)
    ensures |answers| >= |Calls(chunks)|
    ensures forall i :: 0 <= i < |Calls(chunks)| ==> Calls(chunks)[i] != [] && -1 <= answers[i] <= |Calls(chunks)[i]|
    decreases |chunks|
  {
    if chunks != [] {
      if chunks[0] == [] {
        AnswersMean(chunks[1..], answers);
      } else {
        AnswersMean(chunks[1..], answers[1..]);
        var calls, rest := Calls(chunks), Calls(chunks[1..]);
        forall i | 0 <= i < |calls| ensures calls[i] != [] && -1 <= answers[i] <= |calls[i]| {
          if i > 0 {
            assert calls[i] == rest[i - 1] && answers[i] == answers[1..][i - 1];
          }
        }
      }
    }
  }

  lemma AcceptedCons(calls: seq<seq<Byte>>, answers: seq<int>, k: nat)
    requires k < |calls| && k < |answers| && forall i :: 0 <= i <= k ==> 0 <= answers[i] <= |calls[i]|
    ensures forall i :: 0 <= i < k ==> 0 <= answers[1..][i] <= |calls[1..][i]|
    ensures Accepted(calls, answers, k + 1) == [calls[0][..answers[0]]] + Accepted(calls[1..], answers[1..], k)
  {
  }

  /** The calls go on up to the first that accepts nothing; an error discards the length written so far. */
  lemma {:induction false} SerialStopsAt(chunks: seq<seq<Byte>>, answers: seq<int>) returns (k: nat)
    requires Answers(chunks, answers)
    ensures k <= |Calls(chunks)| <= |answers|
    ensures forall i :: 0 <= i < k ==> 0 < answers[i] <= |Calls(chunks)[i]|
    ensures k < |Calls(chunks)| ==> answers[k] <= 0
    ensures Serial(chunks, answers).0 == Flat(Accepted(Calls(chunks), answers, k))
    ensures Serial(chunks, answers).1 ==
            if k < |Calls(chunks)| && answers[k] == -1 then -1 else |Serial(chunks, answers).0|
    decreases |chunks|
  {
    AnswersMean(chunks, answers);
    if chunks == [] || (chunks[0] != [] && answers[0] <= 0) {
      k := 0;
    } else if chunks[0] == [] {
      k := SerialStopsAt(chunks[1..], answers);
    } else {
      var r := SerialStopsAt(chunks[1..], answers[1..]);
      k := r + 1;
      var calls, rest := Calls(chunks), Calls(chunks[1..]);
      assert calls[1..] == rest;
      forall i | 0 <= i < k ensures 0 < answers[i] <= |calls[i]| {
        if i > 0 {
          assert answers[i] == answers[1..][i - 1] && calls[i] == rest[i - 1];
        }
      }
      AcceptedCons(calls, answers, r);
      FlatCons(chunks[0][..answers[0]], Accepted(rest, answers[1..], r));
      SerialStep(chunks, answers);
      hide Serial, Answers, Flat, Accepted;
      if k < |calls| {
        assert answers[k] == answers[1..][r];
      }
    }
  }

  /** The whole contents are written, and their length returned, if and only if the writer accepts all it is given. */
  lemma NothingLostIff(chunks: seq<seq<Byte>>, answers: seq<int>)
    requires Answers(chunks, answers)
    ensures Serial(chunks, answers) == (Flat(chunks), |Flat(chunks)|) <==> TakesAll(chunks, answers)
    ensures Serial(chunks, answers).0 == Flat(chunks) <==> TakesAll(chunks, answers)
  {
    FullLengthIff(chunks, answers);
  }

  /** Short of an error, the returned length therefore tells whether everything was written. */
  lemma CompleteIff(chunks: seq<seq<Byte>>, answers: seq<int>)
    requires Answers(chunks, answers) && Serial(chunks, answers).1 != -1
    ensures var (out, ret) := Serial(chunks, answers);
      |out| == ret <= |Flat(chunks)| && (ret == |Flat(chunks)| <==> out == Flat(chunks))
  {
    FullLengthIff(chunks, answers);
  }

  /** The answers of a writer that accepts all it is given. */
  function AllAccepted(chunks: seq<seq<Byte>>): (answers: seq<int>)
    ensures Answers(chunks, answers) && TakesAll(chunks, answers)
  {
    if chunks == [] then []
    else if chunks[0] == [] then AllAccepted(chunks[1..])
    else [|chunks[0]|] + AllAccepted(chunks[1..])
  }

  /** With such a writer the loop writes what the copy to memory writes, and returns its length. */
  lemma FullWriterAgrees(chunks: seq<seq<Byte>>)
    ensures Serial(chunks, AllAccepted(chunks)) == (Flat(chunks), |Flat(chunks)|)
  {
    NothingLostIff(chunks, AllAccepted(chunks));
  }

  /** After a short write the loop goes on with the next buffer: the rest of the first one is lost. */
  lemma ShortWriteLosesBytes()
    ensures Answers([[1, 2], [3]], [1, 1]) && Serial([[1, 2], [3]], [1, 1]) == ([1, 3], 2)
    ensures Flat([[1, 2], [3]]) == [1, 2, 3]
  {
    var cs: seq<seq<Byte>> := [[1, 2], [3]];
    var last: seq<seq<Byte>>, none: seq<seq<Byte>>, one: seq<int>, zero: seq<int> := [[3]], [], [1], [];
    assert cs[1..] == last && last[1..] == none && [1, 1][1..] == one && one[1..] == zero;
    assert Serial(none, zero) == ([], 0);
    assert last[0][..1] + [] == [3];
    assert Serial(last, one) == ([3], 1);
    assert cs[0][..1] + [3] == [1, 3];
    FlatSnoc([], [1, 2]);
    FlatSnoc([[1, 2]], [3]);
    assert [] + [[1, 2]] == [[1, 2]] && [[1, 2]] + [[3]] == cs;
  }

  // ---------- Buffers on the heap ----------

  class Buf {
    const orig: array<Byte>
    const olen: nat
    const owner: bool
    var len: nat
    ghost var data: seq<Byte>

    constructor (orig: array<Byte>, olen: nat, owner: bool)
      ensures this.orig == orig && this.olen == olen && this.owner == owner && len == 0 && data == []
    {
      this.orig, this.olen, this.owner, len, data := orig, olen, owner, 0, [];
    }

    /** The bytes in use fit and are the buffer's part of the contents. */
    ghost predicate Valid()
      reads this, orig
    {
      len <= olen <= orig.Length && olen < WIDTH && data == orig[..len]
    }
  }

  ghost function Arrays(bufs: seq<Buf>): set<object> {
    set b | b in bufs :: b.orig
  }

  ghost predicate NoneTwice(bufs: seq<Buf>) {
    forall i, j :: 0 <= i < j < |bufs| ==> bufs[i] != bufs[j] && bufs[i].orig != bufs[j].orig
  }

  ghost predicate Sound(bufs: seq<Buf>)
    reads bufs, Arrays(bufs)
  {
    NoneTwice(bufs) && forall b :: b in bufs ==> b.Valid()
  }

  ghost function Chunks(bufs: seq<Buf>): (cs: seq<seq<Byte>>)
    reads bufs
    ensures |cs| == |bufs| && forall i :: 0 <= i < |bufs| ==> cs[i] == bufs[i].data
  {
    if bufs == [] then [] else Chunks(bufs[..|bufs| - 1]) + [bufs[|bufs| - 1].data]
  }

  /** memcpy. */
  method Copy(dst: array<Byte>, at: nat, src: array<Byte>, n: nat)
    requires n <= src.Length && at + n <= dst.Length && (dst == src ==> at == 0)
    modifies dst
    ensures dst[..at + n] == old(dst[..at]) + old(src[..n])
    ensures dst[at + n..] == old(dst[at + n..])
  {
    for k := 0 to n
      invariant forall i :: 0 <= i < at ==> dst[i] == old(dst[i])
      invariant forall i :: 0 <= i < k ==> dst[at + i] == old(src[i])
      invariant forall i :: at + k <= i < dst.Length ==> dst[i] == old(dst[i])
    {
      dst[at + k] := src[k];
    }
  }

  lemma SoundSnoc(bufs: seq<Buf>, rb: Buf)
    requires Sound(bufs) && rb !in bufs && rb.orig !in Arrays(bufs) && rb.Valid()
    ensures Sound(bufs + [rb]) && Arrays(bufs + [rb]) == Arrays(bufs) + {rb.orig}
  {
    assert forall i :: 0 <= i < |bufs| ==> bufs[i].orig in Arrays(bufs);
  }

  lemma ChunksConcat(a: seq<Buf>, b: seq<Buf>)
    ensures Flat(Chunks(a + b)) == Flat(Chunks(a)) + Flat(Chunks(b))
    ensures Flat(Chunks([])) == []
  {
    assert Chunks(a + b) == Chunks(a) + Chunks(b);
    FlatConcat(Chunks(a), Chunks(b));
  }

  lemma OneChunk(rb: Buf)
    ensures Flat(Chunks([rb])) == rb.data
  {
    assert Chunks([rb]) == [] + [rb.data];
    FlatSnoc([], rb.data);
  }

  lemma LastChunk(bufs: seq<Buf>, cs: seq<seq<Byte>>, more: seq<Byte>)
    requires bufs != [] && |cs| == |bufs|
    requires forall i :: 0 <= i < |bufs| - 1 ==> bufs[i].data == cs[i]
    requires bufs[|bufs| - 1].data == cs[|bufs| - 1] + more
    ensures Flat(Chunks(bufs)) == Flat(cs) + more
  {
    var m := |bufs| - 1;
    assert Chunks(bufs) == cs[m := cs[m] + more];
    FlatLast(cs, more);
  }

  lemma LastApart(bufs: seq<Buf>)
    requires Sound(bufs) && bufs != []
    ensures bufs[|bufs| - 1].Valid()
    ensures forall b :: b in bufs && b != bufs[|bufs| - 1] ==> b.orig != bufs[|bufs| - 1].orig
    ensures forall i :: 0 <= i < |bufs| - 1 ==> bufs[i] != bufs[|bufs| - 1]
    ensures bufs[|bufs| - 1].orig in Arrays(bufs)
  {
  }

  /** rd_buf_new: a copied buffer gets at least the size of its header, an owned one takes the data as it is. */
  method NewBuf(data: array?<Byte>, n: nat, owner: bool) returns (rb: Buf)
    requires n < WIDTH && (owner ==> data != null && n <= data.Length)
    ensures fresh(rb) && rb.Valid() && rb.len == 0 && rb.owner == owner && n <= rb.olen
    ensures if owner then rb.orig == data && rb.olen == n
            else fresh(rb.orig) && rb.olen == rb.orig.Length == if n < 48 then 48 else n
  {
    if owner {
      rb := new Buf(data, n, true);
    } else {
      var size := if n < BUF_SIZE then BUF_SIZE else n;
      var orig := new Byte[size](_ => 0);
      rb := new Buf(orig, size, false);
    }
  }

  lemma SoundMeans(bufs: seq<Buf>)
    requires Sound(bufs)
    ensures NoneTwice(bufs) && forall b :: b in bufs ==> b.Valid()
    ensures forall b :: b in bufs ==> b.len == |b.data|
  {
  }

  lemma MeansSound(bufs: seq<Buf>)
    requires NoneTwice(bufs) && forall b :: b in bufs ==> b.Valid()
    ensures Sound(bufs)
  {
  }

  ghost predicate Apart(a: seq<Buf>, b: seq<Buf>) {
    forall x, y :: x in a && y in b ==> x != y && x.orig != y.orig
  }

  lemma NextApart(a: seq<Buf>, b: seq<Buf>, k: nat)
    requires NoneTwice(b) && Apart(a, b) && k < |b|
    ensures b[k] !in a + b[..k] && b[k].orig !in Arrays(a + b[..k])
  {
  }

  lemma InArrays(bufs: seq<Buf>, k: nat)
    requires Sound(bufs) && k < |bufs|
    ensures bufs[k].orig in Arrays(bufs) && bufs[k].Valid() && Chunks(bufs)[k] == bufs[k].data
    ensures |Chunks(bufs)| == |bufs|
  {
  }

  lemma NotAmong(bufs: seq<Buf>, a: array<Byte>)
    requires a !in Arrays(bufs)
    ensures forall b :: b in bufs ==> b.orig != a
  {
  }

  lemma TakeFirst(bufs: seq<Buf>)
    requires NoneTwice(bufs) && bufs != []
    ensures NoneTwice(bufs[1..]) && bufs[0] !in bufs[1..]
    ensures |Flat(Chunks(bufs))| - |bufs[0].data| == |Flat(Chunks(bufs[1..]))|
  {
    hide Flat, Chunks;
    assert bufs == [bufs[0]] + bufs[1..];
    ChunksConcat([bufs[0]], bufs[1..]);
    OneChunk(bufs[0]);
  }

  // The loop's result so far, continued by what the rest of the chain yields.

  function Resume(out: seq<Byte>, ret: int, tail: (seq<Byte>, int)): (seq<Byte>, int) {
    (out + tail.0, if tail.1 == -1 then -1 else ret + tail.1)
  }

  lemma SerialStep(chunks: seq<seq<Byte>>, answers: seq<int>)
    requires Answers(chunks, answers)
    ensures chunks == [] ==> Serial(chunks, answers) == ([], 0)
    ensures chunks != [] && chunks[0] == [] ==>
      Answers(chunks[1..], answers) && Serial(chunks, answers) == Serial(chunks[1..], answers)
    ensures chunks != [] && chunks[0] != [] ==>
      answers != [] && -1 <= answers[0] <= |chunks[0]| && Answers(chunks[1..], answers[1..])
    ensures chunks != [] && chunks[0] != [] && answers[0] <= 0 ==> Serial(chunks, answers) == ([], answers[0])
    ensures chunks != [] && chunks[0] != [] && answers[0] > 0 ==>
      Serial(chunks, answers) == Resume(chunks[0][..answers[0]], answers[0], Serial(chunks[1..], answers[1..]))
  {
  }

  lemma ResumeEnds(out: seq<Byte>, ret: int)
    ensures Resume(out, ret, ([], 0)) == (out, ret) && Resume(out, ret, ([], -1)) == (out, -1)
  {
    assert out + [] == out;
  }

  lemma ResumeFrom(tail: (seq<Byte>, int))
    requires tail.1 >= -1
    ensures Resume([], 0, tail) == tail
  {
    assert [] + tail.0 == tail.0;
  }

  lemma ResumeTwice(out: seq<Byte>, ret: nat, more: seq<Byte>, r: nat, tail: (seq<Byte>, int))
    requires tail.1 >= -1
    ensures Resume(out, ret, Resume(more, r, tail)) == Resume(out + more, ret + r, tail)
  {
    assert out + (more + tail.0) == (out + more) + tail.0;
  }

  class Bufh {
    var bufs: seq<Buf>
    var len: nat

    ghost predicate Valid()
      reads this, bufs, Arrays(bufs)
    {
      Sound(bufs) && len == Wrap(|Contents()|)
    }

    ghost function Contents(): seq<Byte>
      reads this, bufs
    {
      Flat(Chunks(bufs))
    }

    /** rd_bufh_new. */
    constructor ()
      ensures Valid() && bufs == [] && Contents() == []
    {
      bufs, len := [], 0;
    }

    /** The last buffer, when it is there and has room for n more bytes. */
    predicate Room(n: nat)
      reads this, bufs
    {
      bufs != [] && bufs[|bufs| - 1].olen - bufs[|bufs| - 1].len >= n
    }

    lemma ValidMeans()
      requires Valid()
      ensures Sound(bufs) && len == Wrap(|Flat(Chunks(bufs))|) && Contents() == Flat(Chunks(bufs))
    {
    }

    /** The counter is the length of the contents in 32 bits: the length itself as long as that fits. */
    lemma CounterIsLength()
      requires Valid()
      ensures len == |Contents()| % 0x1_0000_0000
      ensures |Contents()| < 0x1_0000_0000 ==> len == |Contents()|
    {
    }

    lemma MeansValid()
      requires Sound(bufs) && len == Wrap(|Flat(Chunks(bufs))|)
      ensures Valid() && Contents() == Flat(Chunks(bufs))
    {
    }

    lemma RoomMeans(n: nat)
      ensures Room(n) <==> bufs != [] && bufs[|bufs| - 1].olen - bufs[|bufs| - 1].len >= n
    {
    }

    /** rd_bufh_buf_insert behind the last buffer. */
    method InsertTail(rb: Buf)
      requires Valid() && rb !in bufs && rb.orig !in Arrays(bufs) && rb.Valid()
      modifies this
      ensures Valid() && bufs == old(bufs) + [rb] && Contents() == old(Contents()) + rb.data
      ensures Arrays(bufs) == old(Arrays(bufs)) + {rb.orig}
      ensures len == |Contents()| % 0x1_0000_0000
    {
      hide *;
      ValidMeans();
      SoundSnoc(bufs, rb);
      ChunksConcat(bufs, [rb]);
      OneChunk(rb);
      ValidBuf(rb);
      bufs := bufs + [rb];
      WrapAdds(|Flat(Chunks(old(bufs)))|, rb.len);
      len := Wrap(len + rb.len);
      MeansValid();
      CounterIsLength();
    }

    lemma ValidBuf(rb: Buf)
      requires rb.Valid()
      ensures rb.len == |rb.data| <= rb.olen <= rb.orig.Length && rb.olen < WIDTH && rb.data == rb.orig[..rb.len]
    {
    }

    lemma ValidNow(rb: Buf)
      requires rb.len == |rb.data| <= rb.olen <= rb.orig.Length && rb.olen < WIDTH && rb.data == rb.orig[..rb.len]
      ensures rb.Valid()
    {
    }

    /** rd_buf_append_data on the last buffer. */
    method AppendData(data: array<Byte>, n: nat)
      requires Valid() && Room(n) && n <= data.Length
      requires data in Arrays(bufs) ==> data == bufs[|bufs| - 1].orig && bufs[|bufs| - 1].len == 0
      modifies this, bufs[|bufs| - 1], bufs[|bufs| - 1].orig
      ensures Valid() && bufs == old(bufs) && Contents() == old(Contents()) + old(data[..n])
      ensures len == |Contents()| % 0x1_0000_0000
    {
      hide *;
      ValidMeans();
      RoomMeans(n);
      LastApart(bufs);
      var rb := bufs[|bufs| - 1];
      ValidBuf(rb);
      ghost var cs, more := Chunks(bufs), data[..n];
      assert forall b :: b in bufs && b != rb ==> b.Valid() by {
        SoundMeans(bufs);
      }
      Copy(rb.orig, rb.len, data, n);
      rb.data := rb.data + more;
      rb.len := rb.len + n;
      WrapAdds(|Flat(cs)|, n);
      len := Wrap(len + n);
      LastChunk(bufs, cs, more);
      ValidNow(rb);
      MeansSound(bufs);
      MeansValid();
      CounterIsLength();
    }

    /** The buffer for n more bytes: the last one if it has room and the data is copied, else a new one. */
    method BufFor(data: array?<Byte>, n: nat, owner: bool) returns (rb: Buf)
      requires Valid() && n < WIDTH && (owner ==> data != null)
      requires data != null ==> n <= data.Length && data !in Arrays(bufs)
      modifies this
      ensures Valid() && Contents() == old(Contents()) && Room(n) && rb == bufs[|bufs| - 1]
      ensures if old(Room(n)) && !owner then bufs == old(bufs)
              else bufs == old(bufs) + [rb] && fresh(rb) && rb.owner == owner && rb.len == 0
      ensures owner ==> rb.orig == data
      ensures !owner ==> fresh(Arrays(bufs) - old(Arrays(bufs)))
    {
      ghost var arrays := Arrays(bufs);
      assert allocated(arrays);
      hide *;
      RoomMeans(n);
      if !owner && Room(n) {
        rb := bufs[|bufs| - 1];
      } else {
        rb := NewBuf(data, n, owner);
        ValidBuf(rb);
        InsertTail(rb);
        assert rb.data == [];
        RoomMeans(n);
      }
    }

    /**
      rd_bufh_get_buf: the data goes to the end of the contents, into the last buffer if it has
      room and the data is copied, else into a new buffer. Without data only the room is made.
     */
    method GetBuf(data: array?<Byte>, n: nat, owner: bool) returns (rb: Buf)
      requires Valid() && n < WIDTH && (owner ==> data != null)
      requires data != null ==> n <= data.Length && data !in Arrays(bufs)
      modifies this, bufs, Arrays(bufs), if owner then {data} else {}
      ensures Valid() && bufs != [] && rb == bufs[|bufs| - 1]
      ensures Contents() == old(Contents()) + if data == null then [] else old(data[..n])
      ensures if old(Room(n)) && !owner then bufs == old(bufs)
              else bufs == old(bufs) + [rb] && fresh(rb) && rb.owner == owner
      ensures owner ==> rb.orig == data
      ensures data == null ==> Room(n)
      ensures len == |Contents()| % 0x1_0000_0000
    {
      hide *;
      rb := BufFor(data, n, owner);
      RoomMeans(n);
      ValidMeans();
      LastApart(bufs);
      if data != null {
        AppendData(data, n);
      }
      CounterIsLength();
    }

    /** rd_bufh_move from another chain: its contents follow these, and it is left empty. */
    method MoveFrom(src: Bufh)
      requires src != this && Valid() && src.Valid() && Apart(bufs, src.bufs)
      modifies this, src
      ensures Valid() && src.Valid() && Contents() == old(Contents()) + old(src.Contents())
      ensures len == |Contents()| % 0x1_0000_0000
      ensures bufs == old(bufs) + old(src.bufs) && src.bufs == [] && src.Contents() == [] && src.len == 0
    {
      hide *;
      ghost var mine := bufs;
      ValidMeans();
      src.ValidMeans();
      SoundMeans(src.bufs);
      ChunksConcat(mine, src.bufs);
      var k := 0;
      assert mine + src.bufs[..0] == mine;
      while k < |src.bufs|
        invariant k <= |src.bufs| && Valid() && bufs == mine + src.bufs[..k]
        invariant src.bufs == old(src.bufs) && forall b :: b in src.bufs ==> b.Valid()
      {
        NextApart(mine, src.bufs, k);
        assert src.bufs[..k + 1] == src.bufs[..k] + [src.bufs[k]];
        InsertTail(src.bufs[k]);
        k := k + 1;
      }
      assert src.bufs[..k] == src.bufs;
      ValidMeans();
      SoundMeans(bufs);
      src.bufs := [];
      src.len := 0;
      MeansSound(bufs);
      MeansValid();
      src.NothingIsValid();
      CounterIsLength();
    }

    lemma NothingIsValid()
      requires bufs == [] && len == 0
      ensures Valid() && Contents() == []
    {
    }

    /** rd_bufh_serialize_binary_mem0, behind rd_bufh_copyout. */
    method CopyOut(dst: array<Byte>) returns (total: nat)
      requires Valid() && dst !in Arrays(bufs) && |Contents()| <= dst.Length
      modifies dst
      ensures total == |Contents()| && dst[..total] == Contents() == old(Contents())
      ensures dst[total..] == old(dst[total..])
    {
      hide *;
      ValidMeans();
      ghost var start := dst[..];
      total := 0;
      var k := 0;
      ChunksConcat([], []);
      while k < |bufs|
        invariant k <= |bufs| && total <= dst.Length && Sound(bufs) && dst[..total] == Flat(Chunks(bufs[..k]))
        invariant dst[total..] == start[total..]
      {
        var rb := bufs[k];
        InArrays(bufs, k);
        ValidBuf(rb);
        ChunksConcat(bufs[..k], [rb]);
        OneChunk(rb);
        ChunksConcat(bufs[..k + 1], bufs[k + 1..]);
        assert bufs[..k + 1] == bufs[..k] + [rb] && bufs[..k + 1] + bufs[k + 1..] == bufs;
        SoundMeans(bufs);
        NotAmong(bufs, dst);
        Copy(dst, total, rb.orig, rb.len);
        MeansSound(bufs);
        total := total + rb.len;
        k := k + 1;
      }
      assert bufs[..k] == bufs;
    }

    /** The general loop of rd_bufh_serialize with the binary serializer, against the writer's answers. */
    method Serialize(answers: seq<int>) returns (out: seq<Byte>, ret: int)
      requires Valid() && Answers(Chunks(bufs), answers)
      ensures (out, ret) == Serial(Chunks(bufs), answers)
    {
      hide *;
      ValidMeans();
      ghost var cs := Chunks(bufs);
      out, ret := [], 0;
      var k, j := 0, 0;
      assert cs[0..] == cs && answers[0..] == answers;
      ResumeFrom(Serial(cs, answers));
      while k < |bufs|
        invariant k <= |bufs| && j <= |answers| && ret >= 0 && Answers(cs[k..], answers[j..])
        invariant Serial(cs, answers) == Resume(out, ret, Serial(cs[k..], answers[j..]))
      {
        var rb := bufs[k];
        InArrays(bufs, k);
        ValidBuf(rb);
        SerialStep(cs[k..], answers[j..]);
        assert cs[k..][0] == rb.data && cs[k..][1..] == cs[k + 1..];
        if rb.len != 0 {
          assert answers[j..][0] == answers[j] && answers[j..][1..] == answers[j + 1..];
          var r := answers[j];
          j := j + 1;
          if r == -1 {
            ResumeEnds(out, ret);
            return out, -1;
          } else if r == 0 {
            ResumeEnds(out, ret);
            return;
          }
          ResumeTwice(out, ret, rb.data[..r], r, Serial(cs[k + 1..], answers[j..]));
          assert rb.data[..r] == rb.orig[..r];
          out := out + rb.orig[..r];
          ret := ret + r;
        }
        k := k + 1;
      }
      SerialStep(cs[k..], answers[j..]);
      ResumeEnds(out, ret);
    }

    /** rd_bufh_destroy: whatever the contents, the counter ends at 0, as its assertion demands. */
    method Destroy()
      requires Valid()
      modifies this, bufs
      ensures bufs == [] && len == 0
    {
      hide *;
      ValidMeans();
      SoundMeans(bufs);
      while bufs != []
        invariant NoneTwice(bufs) && len == Wrap(|Flat(Chunks(bufs))|)
        invariant forall b :: b in bufs ==> b in old(bufs) && b.len == |b.data|
        decreases |bufs|
      {
        var rb := bufs[0];
        TakeFirst(bufs);
        WrapAdds(|Flat(Chunks(bufs))|, rb.len);
        bufs := bufs[1..];
        len := Wrap(len - rb.len);
        rb.len := Wrap(rb.len - rb.len);
      }
      Nothing();
    }
  }
}
