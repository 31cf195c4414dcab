/** The byte sink and byte source the codecs talk to. Both are modelled as
    in-memory buffers: a writer with a fixed capacity whose writes are
    all-or-nothing, and a reader over a fixed byte string with a cursor. */
module Streams {
  import opened Wire

  /** What a run of writes leaves behind, and the status it returns. */
  datatype Emitted = Emitted(bytes: seq<byte>, status: Status)

  /** The effect of writing `pieces` one after another into a sink with
      `room` free bytes while returning on the first failing status: pieces
      go out in order until the first one that does not fit; that write
      fails with WriteLimitReached and nothing after it is written. */
  function Emit(pieces: seq<seq<byte>>, room: nat): (e: Emitted)
    ensures |e.bytes| <= room && e.bytes <= Flatten(pieces)
  {
    if pieces == [] then Emitted([], Ok)
    else if |pieces[0]| > room then Emitted([], Fail(WriteLimitReached))
    else
      var rest := Emit(pieces[1..], room - |pieces[0]|);
      Emitted(pieces[0] + rest.bytes, rest.status)
  }

  /** A run of writes succeeds exactly when all of it fits, and then it has
      written every piece; otherwise the error is the sink's. */
  lemma {:induction false} EmitSucceedsIffFits(pieces: seq<seq<byte>>, room: nat)
    ensures Emit(pieces, room).status.Ok? <==> |Flatten(pieces)| <= room
    ensures Emit(pieces, room).status.Ok? ==> Emit(pieces, room).bytes == Flatten(pieces)
    ensures Emit(pieces, room).status.Fail? ==> Emit(pieces, room).status.error == WriteLimitReached
  {
    if pieces != [] && |pieces[0]| <= room {
      EmitSucceedsIffFits(pieces[1..], room - |pieces[0]|);
    }
  }

  /** Emit over the pieces from index `k` on, indexing instead of slicing. */
  function EmitFrom(pieces: seq<seq<byte>>, k: nat, room: nat): Emitted
    requires k <= |pieces|
    decreases |pieces| - k
  {
    if k == |pieces| then Emitted([], Ok)
    else if |pieces[k]| > room then Emitted([], Fail(WriteLimitReached))
    else
      var rest := EmitFrom(pieces, k + 1, room - |pieces[k]|);
      Emitted(pieces[k] + rest.bytes, rest.status)
  }

  /** One piece that fits moves the run on to the next piece, after what
      was written before and that piece. */
  lemma EmitFromStep(pieces: seq<seq<byte>>, k: nat, room: nat, before: seq<byte>)
    requires k < |pieces|
    ensures |pieces[k]| <= room ==>
      var rest := EmitFrom(pieces, k + 1, room - |pieces[k]|);
      before + EmitFrom(pieces, k, room).bytes == (before + pieces[k]) + rest.bytes &&
      EmitFrom(pieces, k, room).status == rest.status
  {
  }

  lemma {:induction false} EmitFromSuffix(pieces: seq<seq<byte>>, k: nat, room: nat)
    requires k <= |pieces|
    ensures EmitFrom(pieces, k, room) == Emit(pieces[k..], room)
    decreases |pieces| - k
  {
    if k < |pieces| && |pieces[k]| <= room {
      assert pieces[k..][1..] == pieces[k + 1..];
      EmitFromSuffix(pieces, k + 1, room - |pieces[k]|);
    }
  }

  /** Two writes in a row. */
  lemma EmitTwo(a: seq<byte>, b: seq<byte>, room: nat)
    ensures Emit([a, b], room) ==
      if |a| > room then Emitted([], Fail(WriteLimitReached))
      else if |b| > room - |a| then Emitted(a, Fail(WriteLimitReached))
      else Emitted(a + b, Ok)
  {
    assert [a, b][1..] == [b] && [b][1..] == [];
    if |a| <= room {
      var room' := room - |a|;
      assert Emit([b], room') == if |b| > room' then Emitted([], Fail(WriteLimitReached)) else Emitted(b + [], Ok);
      assert a + [] == a && b + [] == b;
    }
  }

  /** `out` is what the sink holds after writing the first `k` pieces and
      stopping there: because they were all that was asked for, or because
      piece `k` did not fit. */
  ghost predicate StoppedAt(pieces: seq<seq<byte>>, room: nat, out: Emitted, k: nat)
  {
    k <= |pieces| && out.bytes == Flatten(pieces[..k]) && |Flatten(pieces[..k])| <= room &&
    (out.status.Fail? ==> k < |pieces| && |Flatten(pieces[..k])| + |pieces[k]| > room)
  }

  /** A run of writes leaves exactly a whole number of leading pieces in the
      sink, never more than fits; when it fails, the next piece is the one
      that did not fit, and no later piece was written. */
  lemma {:induction false} EmitStopsAtFirstFailure(pieces: seq<seq<byte>>, room: nat)
    ensures exists k: nat :: StoppedAt(pieces, room, Emit(pieces, room), k)
  {
    if pieces == [] || |pieces[0]| > room {
      assert pieces[..0] == [];
      assert StoppedAt(pieces, room, Emit(pieces, room), 0);
    } else {
      var room' := room - |pieces[0]|;
      EmitStopsAtFirstFailure(pieces[1..], room');
      var k: nat :| StoppedAt(pieces[1..], room', Emit(pieces[1..], room'), k);
      assert pieces[..k + 1] == [pieces[0]] + pieces[1..][..k];
      assert pieces[..k + 1][1..] == pieces[1..][..k];
      assert StoppedAt(pieces, room, Emit(pieces, room), k + 1);
    }
  }

  /** A byte sink with a fixed capacity (a buffer writer). */
  class Writer {
    var data: seq<byte>
    const capacity: nat

    ghost predicate Valid()
      reads this
    {
      |data| <= capacity
    }

    /** Free bytes left in the sink. */
    function Room(): nat
      reads this
      requires Valid()
    {
      capacity - |data|
    }

    constructor (capacity: nat)
      ensures Valid() && data == [] && this.capacity == capacity
    {
      data := [];
      this.capacity := capacity;
    }

    /** Writes all of `bytes`, or nothing when they do not fit. */
    method Write(bytes: seq<byte>) returns (s: Status)
      requires Valid()
      modifies this
      ensures Valid()
      ensures |bytes| <= old(Room()) ==> s == Ok && data == old(data) + bytes
      ensures |bytes| > old(Room()) ==> s == Fail(WriteLimitReached) && data == old(data)
    {
      if |bytes| <= capacity - |data| {
        data := data + bytes;
        s := Ok;
      } else {
        s := Fail(WriteLimitReached);
      }
    }
  }

  /** A byte source over a fixed byte string, with a cursor. */
  class Reader {
    const data: seq<byte>
    var pos: nat

    ghost predicate Valid()
      reads this
    {
      pos <= |data|
    }

    /** Bytes not yet consumed. */
    function Remaining(): nat
      reads this
      requires Valid()
    {
      |data| - pos
    }

    constructor (data: seq<byte>)
      ensures Valid() && this.data == data && pos == 0
    {
      this.data := data;
      pos := 0;
    }

    /** The availability query: succeeds exactly when at least `n` bytes
        remain. Consumes nothing. */
    method Ensure(n: nat) returns (s: Status)
      requires Valid()
      ensures s.Ok? <==> n <= Remaining()
      ensures s.Fail? ==> s.error == ReadLimitReached
    {
      s := if n <= |data| - pos then Ok else Fail(ReadLimitReached);
    }

    /** Reads exactly `n` bytes, or nothing when fewer remain. */
    method Read(n: nat) returns (r: Result<seq<byte>>)
      requires Valid()
      modifies this`pos
      ensures Valid()
      ensures n <= old(Remaining()) ==> r == Success(data[old(pos)..old(pos) + n]) && pos == old(pos) + n
      ensures n > old(Remaining()) ==> r == Failure(ReadLimitReached) && pos == old(pos)
    {
      if n <= |data| - pos {
        r := Success(data[pos..pos + n]);
        pos := pos + n;
      } else {
        r := Failure(ReadLimitReached);
      }
    }

    /** Moves the cursor past `n` bytes a decoder has consumed. */
    method Skip(n: nat)
      requires Valid() && n <= Remaining()
      modifies this`pos
      ensures Valid() && pos == old(pos) + n
    {
      pos := pos + n;
    }
  }
}
