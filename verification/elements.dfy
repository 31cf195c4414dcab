/** The element loops shared by every container shape and both strategies:
    writing one byte string per element, and reading `count` elements into
    a destination, stopping at the first failure. */
module Elements {
  import opened Wire
  import opened Streams
  import opened Codecs
  import opened Containers

  /** The outcome of a run of element reads: the status, where the cursor
      ended, and the elements decoded before it stopped. */
  datatype Decoded<T> = Decoded(status: Status, pos: nat, elems: seq<T>)

  /** The element loop of WritePayload: writes the bytes `f` gives for each
      element, in order, returning on the first failing write. */
  method WriteEach<T>(f: T -> seq<byte>, xs: seq<T>, w: Writer) returns (s: Status)
    requires w.Valid()
    modifies w
    ensures w.Valid()
    ensures var e := Emit(Encoded(f, xs), old(w.Room()));
      w.data == old(w.data) + e.bytes && s == e.status
  {
    ghost var pieces := Encoded(f, xs);
    ghost var start, e := w.data, EmitFrom(pieces, 0, w.Room());
    EmitFromSuffix(pieces, 0, w.Room());
    assert pieces[0..] == pieces;
    s := Ok;
    var i := 0;
    while i < |xs|
      invariant 0 <= i <= |xs| && w.Valid() && s == Ok
      invariant start + e.bytes == w.data + EmitFrom(pieces, i, w.Room()).bytes
      invariant e.status == EmitFrom(pieces, i, w.Room()).status
    {
      EmitFromStep(pieces, i, w.Room(), w.data);
      s := w.Write(f(xs[i]));
      if s.Fail? {
        return;
      }
      i := i + 1;
    }
  }

  /** The element loop of ReadPayload: reads `count` elements one at a
      time and adds each to `dest`, stopping at the first failure. */
  method AddElements<T(!new,==)>(ec: Codec<T>, count: nat, dest: Container<T>, r: Reader) returns (s: Status)
    requires ec.Valid() && r.Valid() && dest.items == []
    modifies dest, r`pos
    ensures r.Valid() && dest.Valid()
    ensures var d := DecodeElements(ec, r.data, old(r.pos), count, []);
      s == d.status && r.pos == d.pos && dest.items == Filled(dest.policy, d.elems)
  {
    ghost var d := DecodeElements(ec, r.data, r.pos, count, []);
    ghost var acc: seq<T> := [];
    var i := 0;
    while i < count
      invariant r.Valid() && dest.Valid() && i <= count && |acc| == i
      invariant dest.items == Filled(dest.policy, acc)
      invariant DecodeElements(ec, r.data, r.pos, count - i, acc) == d
    {
      var e := AddNext(ec, count - i, acc, dest, r);
      if e.Failure? {
        s := Fail(e.error);
        break;
      }
      acc := acc + [e.value];
      i := i + 1;
    }
    if i == count {
      s := Ok;
    }
  }

  /** One turn of the read loop, with `left` elements still to read and
      `acc` added so far: decode at the cursor; on success add the element
      and move past it; on failure change nothing. */
  method AddNext<T(!new,==)>(ec: Codec<T>, ghost left: nat, ghost acc: seq<T>, dest: Container<T>, r: Reader) returns (e: Result<T>)
    requires ec.Valid() && r.Valid() && dest.Valid() && left > 0 && dest.items == Filled(dest.policy, acc)
    modifies dest, r`pos
    ensures r.Valid() && dest.Valid()
    ensures e.Failure? ==>
      dest.items == old(dest.items) &&
      DecodeElements(ec, r.data, old(r.pos), left, acc) == Decoded(Fail(e.error), r.pos, acc)
    ensures e.Success? ==>
      dest.items == Filled(dest.policy, acc + [e.value]) &&
      DecodeElements(ec, r.data, old(r.pos), left, acc) == DecodeElements(ec, r.data, r.pos, left - 1, acc + [e.value])
  {
    ghost var pos := r.pos;
    e := ReadWith(ec, r);
    if e.Success? {
      DecodeElementsStep(ec, r.data, pos, left, acc, e.value, r.pos);
      FilledSnoc(dest.policy, acc, e.value);
      dest.Add(e.value);
    }
  }

  /** The element loop of ReadPayload, from cursor `pos`, with `n` elements
      still to read and `acc` read so far: stops at the first element whose
      decode fails and returns that error. */
  function DecodeElements<T(!new)>(ec: Codec<T>, data: seq<byte>, pos: nat, n: nat, acc: seq<T>): (r: Decoded<T>)
    requires ec.Valid() && pos <= |data|
    ensures pos <= r.pos <= |data|
    decreases n
  {
    if n == 0 then Decoded(Ok, pos, acc)
    else match ec.decode(data[pos..])
      case Failure(e) => Decoded(Fail(e), pos, acc)
      case Success((x, used)) => DecodeElements(ec, data, pos + used, n - 1, acc + [x])
  }

  /** The elements a run decodes extend what was already decoded, by at
      most `n`; the run succeeds exactly when it decoded all `n`. */
  lemma {:induction false} DecodeElementsCount<T(!new)>(ec: Codec<T>, data: seq<byte>, pos: nat, n: nat, acc: seq<T>)
    requires ec.Valid() && pos <= |data|
    ensures var r := DecodeElements(ec, data, pos, n, acc);
      |acc| <= |r.elems| <= |acc| + n && r.elems[..|acc|] == acc &&
      (r.status.Ok? <==> |r.elems| == |acc| + n)
    decreases n
  {
    if n > 0 {
      match ec.decode(data[pos..])
      case Failure(e) =>
      case Success((x, used)) =>
        DecodeElementsCount(ec, data, pos + used, n - 1, acc + [x]);
        var r := DecodeElements(ec, data, pos + used, n - 1, acc + [x]);
        assert r.elems[..|acc|] == r.elems[..|acc| + 1][..|acc|];
    }
  }

  /** Every element decoded used up at least one byte, so a run decodes no
      more elements than the bytes it moved past, and so no more than the
      bytes that remained where it started. */
  lemma {:induction false} DecodeElementsBounded<T(!new)>(ec: Codec<T>, data: seq<byte>, pos: nat, n: nat, acc: seq<T>)
    requires ec.Valid() && pos <= |data|
    ensures var r := DecodeElements(ec, data, pos, n, acc);
      |r.elems| <= |acc| + (r.pos - pos) && |r.elems| <= |acc| + (|data| - pos)
    decreases n
  {
    if n > 0 {
      match ec.decode(data[pos..])
      case Failure(e) =>
      case Success((x, used)) =>
        DecodeElementsBounded(ec, data, pos + used, n - 1, acc + [x]);
    }
  }

  /** One turn of the element loop, when the element decodes. */
  lemma DecodeElementsStep<T(!new)>(ec: Codec<T>, data: seq<byte>, pos: nat, n: nat, acc: seq<T>, x: T, pos': nat)
    requires ec.Valid() && pos <= pos' <= |data| && n > 0
    requires ec.decode(data[pos..]) == Success((x, pos' - pos))
    ensures DecodeElements(ec, data, pos, n, acc) == DecodeElements(ec, data, pos', n - 1, acc + [x])
  {
  }

  /** Decoding back-to-back encodings of `ys` reads exactly those elements,
      ending right after them. */
  lemma {:induction false} DecodeEncoded<T(!new)>(ec: Codec<T>, ys: seq<T>, data: seq<byte>, pos: nat, acc: seq<T>, rest: seq<byte>)
    requires ec.Valid() && pos <= |data|
    requires data[pos..] == Flatten(Encoded(ec.encode, ys)) + rest
    ensures DecodeElements(ec, data, pos, |ys|, acc) == Decoded(Ok, pos + |Flatten(Encoded(ec.encode, ys))|, acc + ys)
  {
    if ys != [] {
      var used := |ec.encode(ys[0])|;
      DecodeFirst(ec, ys, data, pos, rest);
      DecodeEncoded(ec, ys[1..], data, pos + used, acc + [ys[0]], rest);
      DecodeElementsCons(ec, data, pos, pos + used, acc, ys, pos + used + |Flatten(Encoded(ec.encode, ys[1..]))|);
    } else {
      assert acc + ys == acc;
    }
  }

  /** A run whose first element decodes to the head of `ys` and whose
      remaining run decodes the rest of `ys` decodes all of `ys`. */
  lemma DecodeElementsCons<T(!new)>(ec: Codec<T>, data: seq<byte>, pos: nat, next: nat, acc: seq<T>, ys: seq<T>, end: nat)
    requires ec.Valid() && pos <= next <= |data| && ys != []
    requires ec.decode(data[pos..]) == Success((ys[0], next - pos))
    requires DecodeElements(ec, data, next, |ys[1..]|, acc + [ys[0]]) == Decoded(Ok, end, acc + [ys[0]] + ys[1..])
    ensures DecodeElements(ec, data, pos, |ys|, acc) == Decoded(Ok, end, acc + ys)
  {
    DecodeElementsStep(ec, data, pos, |ys|, acc, ys[0], next);
    ShiftIntoDecoded(acc, ys);
  }

  /** Moving the next element from those still to decode onto those
      decoded so far leaves the elements of the whole run as they were. */
  lemma ShiftIntoDecoded<T>(acc: seq<T>, ys: seq<T>)
    requires ys != []
    ensures acc + [ys[0]] + ys[1..] == acc + ys
  {
  }

  /** The first of back-to-back encodings decodes, and the rest follow it. */
  lemma DecodeFirst<T(!new)>(ec: Codec<T>, ys: seq<T>, data: seq<byte>, pos: nat, rest: seq<byte>)
    requires ec.Valid() && pos <= |data| && ys != []
    requires data[pos..] == Flatten(Encoded(ec.encode, ys)) + rest
    ensures pos + |ec.encode(ys[0])| <= |data|
    ensures ec.decode(data[pos..]) == Success((ys[0], |ec.encode(ys[0])|))
    ensures data[pos + |ec.encode(ys[0])|..] == Flatten(Encoded(ec.encode, ys[1..])) + rest
    ensures |Flatten(Encoded(ec.encode, ys))| == |ec.encode(ys[0])| + |Flatten(Encoded(ec.encode, ys[1..]))|
  {
    var e := ec.encode(ys[0]);
    var tail := Flatten(Encoded(ec.encode, ys[1..]));
    EncodedCons(ec.encode, ys);
    assert data[pos..] == e + (tail + rest);
    assert data[pos..pos + |e|] == data[pos..][..|e|] == e;
    DecodeAt(ec, data, pos, ys[0]);
    assert data[pos + |e|..] == data[pos..][|e|..];
  }

  /** A read that fails partway through the elements returns the failing
      element's error, and what it leaves is exactly what a read of the
      elements decoded so far would have produced: a prefix, in order. */
  lemma {:induction false} FailureKeepsDecodedPrefix<T(!new)>(ec: Codec<T>, data: seq<byte>, pos: nat, n: nat, acc: seq<T>)
    requires ec.Valid() && pos <= |data|
    requires DecodeElements(ec, data, pos, n, acc).status.Fail?
    ensures var r := DecodeElements(ec, data, pos, n, acc);
      |acc| <= |r.elems| < |acc| + n &&
      DecodeElements(ec, data, pos, |r.elems| - |acc|, acc) == Decoded(Ok, r.pos, r.elems) &&
      ec.decode(data[r.pos..]) == Failure(r.status.error)
    decreases n
  {
    match ec.decode(data[pos..])
    case Failure(e) =>
    case Success((x, used)) =>
      FailureKeepsDecodedPrefix(ec, data, pos + used, n - 1, acc + [x]);
  }


  /** What the element loop leaves in a destination it cleared first: at
      most `count` elements were decoded, all of them exactly when the loop
      succeeded; they are the leading elements of the stream, in order, and
      on failure the next element is the one whose decode failed. A
      sequence holds exactly those elements in that order; a set holds
      exactly their members, without duplicates, and never more of them. */
  lemma AddedElements<T(!new)>(ec: Codec<T>, data: seq<byte>, pos: nat, count: nat, p: Policy)
    requires ec.Valid() && pos <= |data|
    ensures var d := DecodeElements(ec, data, pos, count, []); var items := Filled(p, d.elems);
      |d.elems| <= count && (d.status.Ok? <==> |d.elems| == count) &&
      DecodeElements(ec, data, pos, |d.elems|, []) == Decoded(Ok, d.pos, d.elems) &&
      (d.status.Fail? ==> ec.decode(data[d.pos..]) == Failure(d.status.error)) &&
      (p == Append ==> items == d.elems) &&
      (p == Insert ==> Distinct(items) && Members(items) == Members(d.elems) && |items| <= |d.elems|)
  {
    var d := DecodeElements(ec, data, pos, count, []);
    DecodeElementsCount(ec, data, pos, count, []);
    if d.status.Fail? {
      FailureKeepsDecodedPrefix(ec, data, pos, count, []);
    }
    FilledAppend(d.elems);
    FilledInsert(d.elems);
  }
}
