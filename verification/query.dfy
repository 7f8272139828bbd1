/** The line protocol of `src/query.rs`: a request is a verb, a key and an
    optional value separated by spaces and terminated by CR LF. */
module Queries {

  import opened Results
  import opened Bytes
  import Utf8

  datatype QueryType = Get | Put | Del

  datatype Query = Query(qtype: QueryType, key: Bytes, value: Option<Bytes>)

  /** The decoder's state: how far into the buffer the search for CR LF has
      already gone. */
  datatype QueryCodec = QueryCodec(pos: nat)

  /** The `io::ErrorKind`s the protocol reports. */
  datatype IoError = InvalidInput | InvalidData

  /** What one call of `decode` leaves behind: the codec, the remaining
      buffer, and the call's result. */
  datatype Decoded = Decoded(codec: QueryCodec, buf: Bytes, result: Outcome<Option<Query>, IoError>)

  /** `Display for QueryType`: the bracketed verb, `[get]`, `[put]` or `[del]`. */
  function Verb(t: QueryType): (r: Bytes)
    ensures |r| == 5 && SP !in r && CR !in r
  {
    match t
    case Get => [0x5B, 0x67, 0x65, 0x74, 0x5D]
    case Put => [0x5B, 0x70, 0x75, 0x74, 0x5D]
    case Del => [0x5B, 0x64, 0x65, 0x6C, 0x5D]
  }

  /** The verb match at the head of `from_buffer`: exactly the three tokens
      `Verb` prints are accepted, each as the verb it prints. */
  function ParseVerb(token: Bytes): (r: Option<QueryType>)
    ensures r.Some? ==> Verb(r.value) == token
    ensures r.None? ==> forall t :: Verb(t) != token
  {
    if token == Verb(Get) then Some(Get)
    else if token == Verb(Put) then Some(Put)
    else if token == Verb(Del) then Some(Del)
    else None
  }

  /** `buf.splitn(3, |c| *c == b' ')`: the line cut at its first two spaces.
      Putting the spaces back between the fields gives the line back; only the
      last of three fields may hold a space. */
  function SplitN3(s: Bytes): (fields: seq<Bytes>)
    ensures 1 <= |fields| <= 3
    ensures |fields| == 1 ==> s == fields[0]
    ensures |fields| == 2 ==> s == fields[0] + [SP] + fields[1]
    ensures |fields| == 3 ==> s == fields[0] + [SP] + fields[1] + [SP] + fields[2]
    ensures forall i :: 0 <= i < |fields| - 1 ==> SP !in fields[i]
    ensures |fields| < 3 ==> SP !in fields[|fields| - 1]
  {
    match Find(s, SP)
    case None => [s]
    case Some(i) =>
      var rest := s[i + 1..];
      SplitAround(s, i);
      match Find(rest, SP)
      case None => [s[..i], rest]
      case Some(j) =>
        SplitAround(rest, j);
        [s[..i], rest[..j], rest[j + 1..]]
  }

  /** A sequence is what lies before index `i`, its element at `i`, and what
      lies after. */
  lemma SplitAround(s: Bytes, i: nat)
    requires i < |s|
    ensures s == s[..i] + [s[i]] + s[i + 1..]
  {
  }

  /** `v.split(|c| *c == 13).take(1)`: the value up to its first CR. */
  function UpToCr(v: Bytes): (r: Bytes)
    ensures r <= v && CR !in r
    ensures |r| < |v| ==> v[|r|] == CR
    ensures CR !in v ==> r == v
  {
    match Find(v, CR)
    case None => v
    case Some(i) => v[..i]
  }

  /** The first field of `buf` is the verb of `t`. */
  predicate LeadsWith(buf: Bytes, t: QueryType) {
    buf == Verb(t) || Verb(t) + [SP] <= buf
  }

  /** `Query::from_buffer`. With three fields the key is the second field as it
      stands and the value the third up to its first CR; with two the key is
      the second field less its last two bytes (the CR LF the codec leaves on)
      and there is no value. A single field (`qvec[1]`) and a two-field key
      shorter than two bytes (`key.len() - 2`) panic. */
  function FromBuffer(buf: Bytes): (r: Outcome<Query, IoError>)
    ensures r.Err? ==> r.error == InvalidInput
    ensures r.Ok? ==> SP !in r.value.key
  {
    var fields := SplitN3(buf);
    match ParseVerb(fields[0])
    case None => Err(InvalidInput)
    case Some(t) =>
      if |fields| < 2 then Panic
      else if |fields| == 3 then
        Ok(Query(t, fields[1], Some(UpToCr(fields[2]))))
      else if |fields[1]| < 2 then Panic
      else
        Ok(Query(t, fields[1][..|fields[1]| - 2], None))
  }

  /** The first field of `SplitN3` is the verb of `t` exactly when the line
      leads with that verb. */
  lemma VerbField(buf: Bytes, t: QueryType)
    ensures LeadsWith(buf, t) <==> SplitN3(buf)[0] == Verb(t)
  {
    var fields := SplitN3(buf);
    var f0, v := fields[0], Verb(t);
    var head := if |fields| == 1 then |buf| else |f0|;
    assert buf[..head] == f0;
    assert forall k :: 0 <= k < head ==> buf[k] != SP by {
      assert forall k :: 0 <= k < head ==> buf[k] == f0[k];
    }
    assert head < |buf| ==> buf[head] == SP;
    if v + [SP] <= buf {
      assert buf[..6] == v + [SP];
      assert forall k :: 0 <= k < 5 ==> buf[k] != SP by {
        assert forall k :: 0 <= k < 5 ==> buf[k] == v[k];
      }
      FirstSpace(buf, head, 5);
    }
    if f0 == v && |fields| > 1 {
      assert buf[..6] == v + [SP];
    }
  }

  /** Two indices that both hold the first space of a line coincide; `head`
      may also be the line's length when it holds no space. */
  lemma FirstSpace(s: Bytes, head: nat, a: nat)
    requires head <= |s| && a < |s| && s[a] == SP
    requires head < |s| ==> s[head] == SP
    requires forall k :: 0 <= k < head ==> s[k] != SP
    requires forall k :: 0 <= k < a ==> s[k] != SP
    ensures head == a
  {
  }

  /** `from_buffer` rejects exactly the lines whose first field is not a verb,
      with `InvalidInput`, and otherwise parses that verb. */
  lemma FromBufferVerb(buf: Bytes)
    ensures FromBuffer(buf).Err? <==> forall t :: !LeadsWith(buf, t)
    ensures FromBuffer(buf).Ok? ==> LeadsWith(buf, FromBuffer(buf).value.qtype)
  {
    forall t {
      VerbField(buf, t);
    }
  }

  /** `from_buffer` panics exactly on a verb followed by nothing, or by a
      single space-free field of fewer than two bytes. */
  lemma FromBufferPanics(buf: Bytes)
    ensures FromBuffer(buf).Panic? <==>
      (exists t :: LeadsWith(buf, t)) && |buf| < 8 && (|buf| < 7 || buf[6] != SP)
  {
    var fields := SplitN3(buf);
    forall t {
      VerbField(buf, t);
    }
    if ParseVerb(fields[0]).Some? {
      var t := ParseVerb(fields[0]).value;
      assert LeadsWith(buf, t);
      if |fields| == 2 {
        assert |buf| == 6 + |fields[1]|;
        assert SP !in fields[1];
        if |buf| >= 7 {
          assert buf[6] == fields[1][0];
        }
      } else if |fields| == 3 {
        var f1 := fields[1];
        assert buf == Verb(t) + [SP] + f1 + [SP] + fields[2];
        assert buf[6 + |f1|] == SP;
        if |f1| > 0 {
          assert |buf| >= 8;
        } else {
          assert buf[6] == SP;
        }
      }
    }
  }

  /** Where the key and the value of a parsed query lie in the line. */
  lemma FromBufferFields(buf: Bytes)
    requires FromBuffer(buf).Ok?
    ensures var q := FromBuffer(buf).value;
      q.value.Some? ==>
        7 + |q.key| <= |buf| && buf[..7 + |q.key|] == Verb(q.qtype) + [SP] + q.key + [SP]
        && q.value.value == UpToCr(buf[7 + |q.key|..])
    ensures var q := FromBuffer(buf).value;
      q.value.None? ==>
        |buf| == 8 + |q.key| && buf[..6 + |q.key|] == Verb(q.qtype) + [SP] + q.key && SP !in buf[6..]
  {
  }

  /** `Query::len`: the size hint `encode` reserves, 5 for the verb, the key
      and a separator, and the value with its separator or 1 without one. */
  function Len(q: Query): (n: nat)
    ensures n == |Serialize(q)| + (if q.value.None? then 1 else 0)
  {
    var vLen := match q.value
      case Some(v) => |v| + 1
      case None => 1;
    5 + |q.key| + 1 + vLen
  }

  /** The bytes `to_string` formats: `"{} {} {}"` with the verb, the key and
      the value, or `"{} {}"` without a value. */
  function Serialize(q: Query): (r: Bytes)
    ensures |r| >= 6 && r[..5] == Verb(q.qtype) && r[5] == SP
    ensures CR !in q.key && (q.value.Some? ==> CR !in q.value.value) ==> CR !in r
  {
    match q.value
    case Some(v) => Verb(q.qtype) + [SP] + q.key + [SP] + v
    case None => Verb(q.qtype) + [SP] + q.key
  }

  /** `Query::to_string`: fails exactly when the key, or a value that is
      present, is not valid UTF-8. */
  function ToString(q: Query): (r: Option<Bytes>)
    ensures r.None? <==> !Utf8.Valid(q.key) || (q.value.Some? && !Utf8.Valid(q.value.value))
    ensures r.Some? && q.value.Some? ==> r.value == Verb(q.qtype) + [SP] + q.key + [SP] + q.value.value
    ensures r.Some? && q.value.None? ==> r.value == Verb(q.qtype) + [SP] + q.key
  {
    if !Utf8.Valid(q.key) then None
    else match q.value
      case Some(v) => if Utf8.Valid(v) then Some(Serialize(q)) else None
      case None => Some(Serialize(q))
  }

  /** `QueryCodec::new`: a codec that has searched nothing yet. */
  function NewCodec(): (c: QueryCodec)
    ensures forall buf: Bytes :: Searched(c, buf)
  {
    QueryCodec(0)
  }

  /** The codec's invariant: `pos` lies inside the buffer and no CR LF starts
      before it. */
  predicate Searched(c: QueryCodec, buf: Bytes) {
    c.pos <= |buf| && forall j :: 0 <= j < c.pos ==> !CrlfAt(buf, j)
  }

  /** `Encoder::encode`: the formatted query and CR LF appended to `buf`, whose
      contents stay in front; a key or value that is not UTF-8 is an
      `InvalidData` error. */
  function Encode(q: Query, buf: Bytes): (r: Outcome<Bytes, IoError>)
    ensures r != Panic
    ensures r.Err? <==> ToString(q).None?
    ensures r.Err? ==> r.error == InvalidData
    ensures r.Ok? ==> |r.value| == |buf| + |Serialize(q)| + 2
    ensures r.Ok? ==> r.value[..|buf|] == buf && r.value[|buf|..|r.value| - 2] == Serialize(q)
    ensures r.Ok? ==> CrlfAt(r.value, |r.value| - 2)
    ensures r.Ok? ==> |r.value| <= |buf| + Len(q) + 2
  {
    match ToString(q)
    case None => Err(InvalidData)
    case Some(s) =>
      var out := buf + s + [CR, LF];
      assert out[..|buf|] == buf;
      assert out[|buf|..|out| - 2] == s;
      Ok(out)
  }

  /** The result of `from_buffer` as `decode` returns it. */
  function Framed(x: Outcome<Query, IoError>): (r: Outcome<Option<Query>, IoError>)
    ensures r.Ok? <==> x.Ok?
    ensures r.Ok? ==> r.value == Some(x.value)
    ensures r.Err? <==> x.Err?
    ensures r.Err? ==> r.error == x.error
  {
    match x
    case Ok(q) => Ok(Some(q))
    case Err(e) => Err(e)
    case Panic => Panic
  }

  /** `Decoder::decode`. With a CR LF at or after `pos` the buffer loses the
      prefix through the first such CR LF, `pos` returns to 0 and the prefix is
      parsed; without one the buffer is kept, `pos` becomes the buffer length
      and there is no frame yet. A `pos` beyond the buffer panics on `buf[pos..]`. */
  function Decode(c: QueryCodec, buf: Bytes): (d: Decoded)
    ensures c.pos > |buf| ==> d.result.Panic?
    ensures c.pos <= |buf| && (forall j :: c.pos <= j ==> !CrlfAt(buf, j)) ==>
      d == Decoded(QueryCodec(|buf|), buf, Ok(None))
    ensures forall i :: c.pos <= i && CrlfAt(buf, i) && (forall j :: c.pos <= j < i ==> !CrlfAt(buf, j)) ==>
      d == Decoded(QueryCodec(0), buf[i + 2..], Framed(FromBuffer(buf[..i + 2])))
  {
    if c.pos > |buf| then Decoded(c, buf, Panic)
    else
      match FindCrlf(buf, c.pos)
      case None => Decoded(QueryCodec(|buf|), buf, Ok(None))
      case Some(i) => Decoded(QueryCodec(0), buf[i + 2..], Framed(FromBuffer(buf[..i + 2])))
  }
}
