/** Properties of the line protocol: the encoder and the decoder are inverse,
    and the decoder's search cursor, as written, can skip a terminator. */
module QueryProperties {

  import opened Results
  import opened Bytes
  import opened Queries
  import Utf8

  /** A query the protocol can carry: UTF-8 throughout, a key with no space
      and no CR, and a value with no CR. */
  predicate Framable(q: Query) {
    && Utf8.Valid(q.key) && SP !in q.key && CR !in q.key
    && (q.value.Some? ==> Utf8.Valid(q.value.value) && CR !in q.value.value)
  }

  /** The value part of a line is cut at the CR that ends it. */
  lemma UpToCrStops(v: Bytes, tail: Bytes)
    requires CR !in v && |tail| > 0 && tail[0] == CR
    ensures UpToCr(v + tail) == v
  {
    assert (v + tail)[..|v|] == v;
    FindFirst(v + tail, CR, |v|);
  }

  /** `splitn(3, ' ')` of two space-free fields and a tail. */
  lemma SplitThree(a: Bytes, b: Bytes, c: Bytes)
    requires SP !in a && SP !in b
    ensures SplitN3(a + [SP] + b + [SP] + c) == [a, b, c]
  {
    var line := a + [SP] + b + [SP] + c;
    assert line[..|a|] == a;
    FindFirst(line, SP, |a|);
    var rest := line[|a| + 1..];
    assert rest == b + [SP] + c;
    assert rest[..|b|] == b;
    FindFirst(rest, SP, |b|);
    assert rest[..|b|] == b && rest[|b| + 1..] == c;
  }

  /** `splitn(3, ' ')` of a line holding exactly one space. */
  lemma SplitTwo(a: Bytes, b: Bytes)
    requires SP !in a && SP !in b
    ensures SplitN3(a + [SP] + b) == [a, b]
  {
    var line := a + [SP] + b;
    assert line[..|a|] == a;
    FindFirst(line, SP, |a|);
    assert line[|a| + 1..] == b;
  }

  /** `from_buffer` undoes `to_string` followed by the CR LF terminator. */
  lemma ParseSerialized(q: Query)
    requires SP !in q.key && (q.value.Some? ==> CR !in q.value.value)
    ensures FromBuffer(Serialize(q) + [CR, LF]) == Ok(q)
  {
    var v := Verb(q.qtype);
    assert ParseVerb(v) == Some(q.qtype);
    match q.value {
      case Some(val) =>
        assert Serialize(q) + [CR, LF] == v + [SP] + q.key + [SP] + (val + [CR, LF]);
        SplitThree(v, q.key, val + [CR, LF]);
        UpToCrStops(val, [CR, LF]);
      case None =>
        var f1 := q.key + [CR, LF];
        assert Serialize(q) + [CR, LF] == v + [SP] + f1;
        SplitTwo(v, f1);
        assert f1[..|f1| - 2] == q.key;
    }
  }

  /** Round trip: the bytes `encode` appends to an empty buffer decode, with a
      fresh codec, to the same query, and whatever follows them in the buffer
      is left for the next call. */
  lemma {:induction false} DecodeEncode(q: Query, rest: Bytes)
    requires Framable(q)
    ensures Encode(q, []).Ok?
    ensures Decode(NewCodec(), Encode(q, []).value + rest) == Decoded(NewCodec(), rest, Ok(Some(q)))
  {
    var frame := Encode(q, []).value;
    var s := Serialize(q);
    assert frame == s + [CR, LF];
    assert CR !in s;
    var buf := frame + rest;
    var i := |s|;
    assert CrlfAt(buf, i);
    assert forall j :: 0 <= j < i ==> !CrlfAt(buf, j) by {
      assert forall j :: 0 <= j < i ==> buf[j] == s[j];
    }
    assert buf[..i + 2] == frame && buf[i + 2..] == rest;
    ParseSerialized(q);
  }

  /** A frame `decode` cuts off ends in CR LF, so `from_buffer` never panics on
      it: with a cursor inside the buffer, `decode` never panics. */
  lemma DecodeNoPanic(c: QueryCodec, buf: Bytes)
    requires c.pos <= |buf|
    ensures !Decode(c, buf).result.Panic?
  {
    match FindCrlf(buf, c.pos) {
      case None =>
      case Some(i) =>
        var frame := buf[..i + 2];
        assert frame[i] == CR && frame[i + 1] == LF;
        forall t | LeadsWith(frame, t)
          ensures |frame| >= 8
        {
          assert frame != Verb(t);
          assert frame[5] == SP;
        }
        FromBufferPanics(frame);
    }
  }

  /** Decoding with a cursor that keeps the codec's invariant finds the same
      frame, leaves the same buffer and returns the same result as a search
      from the start of the buffer. */
  lemma DecodeSearchedAgrees(c: QueryCodec, buf: Bytes)
    requires Searched(c, buf)
    ensures Decode(c, buf).buf == Decode(NewCodec(), buf).buf
    ensures Decode(c, buf).result == Decode(NewCodec(), buf).result
  {
  }

  /** As written, a search that ends on a CR records the whole buffer as
      searched: once the LF arrives the terminator starts before the cursor,
      and the invariant no longer holds. */
  lemma DecodeLosesSplitTerminator(buf: Bytes)
    requires |buf| > 0 && buf[|buf| - 1] == CR
    requires forall j :: 0 <= j ==> !CrlfAt(buf, j)
    ensures Decode(NewCodec(), buf) == Decoded(QueryCodec(|buf|), buf, Ok(None))
    ensures !Searched(Decode(NewCodec(), buf).codec, buf + [LF])
  {
    assert CrlfAt(buf + [LF], |buf| - 1);
  }

  /** The terminator of any query, `[get] a` among them, arrives split: the
      line and its CR in one read, the LF in the next. As written, the second
      call reports no frame, although a fresh search of the same buffer finds
      the query. */
  lemma SplitTerminatorMissed(q: Query)
    requires Framable(q)
    ensures var first := Serialize(q) + [CR];
      var d := Decode(NewCodec(), first);
      && d == Decoded(QueryCodec(|first|), first, Ok(None))
      && Decode(d.codec, first + [LF]).result == Ok(None)
      && Decode(NewCodec(), first + [LF]).result == Ok(Some(q))
  {
    var s := Serialize(q);
    var first := s + [CR];
    assert CR !in s;
    assert forall j :: 0 <= j < |s| ==> first[j] != CR;
    assert FindCrlf(first, 0).None?;
    assert FindCrlf(first + [LF], |first|).None?;
    EncodeFrame(q);
    assert Encode(q, []).value + [] == first + [LF] by {
      assert first + [LF] == s + [CR, LF];
    }
    DecodeEncode(q, []);
  }

  /** What `encode` writes into an empty buffer for a query it can carry. */
  lemma EncodeFrame(q: Query)
    requires Framable(q)
    ensures Encode(q, []) == Ok(Serialize(q) + [CR, LF])
  {
    assert [] + Serialize(q) == Serialize(q);
  }

  /** `decode` with the cursor kept one byte short of the end when nothing is
      found, so that a CR at the end of the buffer is searched again. It
      leaves the same buffer and returns the same result as `decode`. */
  function DecodeFixed(c: QueryCodec, buf: Bytes): (d: Decoded)
    ensures d.buf == Decode(c, buf).buf && d.result == Decode(c, buf).result
    ensures d.result.Ok? && d.result.value.None? ==> d.codec.pos + 1 >= |buf|
  {
    if c.pos > |buf| then Decoded(c, buf, Panic)
    else
      match FindCrlf(buf, c.pos)
      case None => Decoded(QueryCodec(if |buf| > 0 then |buf| - 1 else 0), buf, Ok(None))
      case Some(i) => Decoded(QueryCodec(0), buf[i + 2..], Framed(FromBuffer(buf[..i + 2])))
  }

  /** With the fix the codec keeps its invariant across reads: after a call
      that finds nothing, the cursor is still valid for the buffer with any
      further bytes appended. */
  lemma DecodeFixedKeepsSearched(c: QueryCodec, buf: Bytes, more: Bytes)
    requires Searched(c, buf)
    requires DecodeFixed(c, buf).result == Ok(None)
    ensures Searched(DecodeFixed(c, buf).codec, buf + more)
  {
    var pos := DecodeFixed(c, buf).codec.pos;
    assert FindCrlf(buf, c.pos).None?;
    forall j | 0 <= j < pos
      ensures !CrlfAt(buf + more, j)
    {
      assert !CrlfAt(buf, j);
      assert (buf + more)[j] == buf[j] && (buf + more)[j + 1] == buf[j + 1];
    }
  }

  /** With the fix, feeding the decoder a stream in pieces finds the same first
      frame as handing it the whole stream at once: after a call that finds
      nothing, the next call on the extended buffer agrees with a fresh search. */
  lemma {:induction false} DecodeFixedIncremental(c: QueryCodec, buf: Bytes, more: Bytes)
    requires Searched(c, buf)
    requires DecodeFixed(c, buf).result == Ok(None)
    ensures var c' := DecodeFixed(c, buf).codec;
      && DecodeFixed(c', buf + more).buf == Decode(NewCodec(), buf + more).buf
      && DecodeFixed(c', buf + more).result == Decode(NewCodec(), buf + more).result
  {
    var c' := DecodeFixed(c, buf).codec;
    DecodeFixedKeepsSearched(c, buf, more);
    DecodeSearchedAgrees(c', buf + more);
  }
}
