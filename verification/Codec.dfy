/** The wire format: an opcode, the length of the buffer, and fields each preceded by its length; every
    number is a 4-byte little-endian int. */
module Codec {
  import opened Common

  const INT_MAX: nat := 0x7FFF_FFFF

  predicate IsInt(x: int) { -0x8000_0000 <= x <= 0x7FFF_FFFF }

  // The bytes of an int as memcpy sees them.
  function EncodeInt(x: int): (r: seq<Byte>)
    requires IsInt(x)
    ensures |r| == 4
  {
    var u := if x < 0 then x + U32 else x;
    var u1 := u / 256;
    var u2 := u1 / 256;
    [(u % 256) as Byte, (u1 % 256) as Byte, (u2 % 256) as Byte, (u2 / 256) as Byte]
  }

  function DecodeInt(b: seq<Byte>): (x: int)
    requires |b| == 4
    ensures IsInt(x)
  {
    var u := b[0] as int + 256 * (b[1] as int + 256 * (b[2] as int + 256 * b[3] as int));
    if u <= INT_MAX then u else u - U32
  }

  lemma IntRoundTrip(x: int)
    requires IsInt(x)
    ensures DecodeInt(EncodeInt(x)) == x
  {
  }

  lemma IntBytesRoundTrip(b: seq<Byte>)
    requires |b| == 4
    ensures EncodeInt(DecodeInt(b)) == b
  {
    var u2 := b[2] as int + 256 * b[3] as int;
    var u1 := b[1] as int + 256 * u2;
    var u := b[0] as int + 256 * u1;
    assert u / 256 == u1 && u1 / 256 == u2 && u2 / 256 == b[3] as int;
    assert u % 256 == b[0] as int && u1 % 256 == b[1] as int && u2 % 256 == b[2] as int;
  }

  datatype Packet = Packet(op: int, fields: seq<seq<Byte>>)

  /** The buffer agregar_a_paquete builds, field after field. */
  function Stream(fields: seq<seq<Byte>>): (r: seq<Byte>)
    requires forall i :: 0 <= i < |fields| ==> |fields[i]| <= INT_MAX
  {
    if fields == [] then []
    else
      var n := |fields| - 1;
      Stream(fields[..n]) + EncodeInt(|fields[n]|) + fields[n]
  }

  /** Opcode, field sizes and buffer size fit an int: what a receiver can be told. */
  predicate Encodes(p: Packet) {
    && IsInt(p.op)
    && (forall i :: 0 <= i < |p.fields| ==> |p.fields[i]| <= INT_MAX)
    && |Stream(p.fields)| <= INT_MAX
  }

  /** And so does the total that enviar_paquete computes as an int: what a sender can send. */
  predicate Fits(p: Packet) {
    Encodes(p) && |Stream(p.fields)| + 8 <= INT_MAX
  }

  function Serialize(p: Packet): (r: seq<Byte>)
    requires Encodes(p)
    ensures |r| == |Stream(p.fields)| + 8
  {
    EncodeInt(p.op) + EncodeInt(|Stream(p.fields)|) + Stream(p.fields)
  }

  function SerializeAll(ps: seq<Packet>): seq<Byte>
    requires forall i :: 0 <= i < |ps| ==> Encodes(ps[i])
  {
    if ps == [] then [] else Serialize(ps[0]) + SerializeAll(ps[1..])
  }

  /** The decoding loop of recibir_paquete from offset `at` of the buffer on; None where the C code
      would read past the buffer or allocate a negative size. */
  function DecodeFields(buffer: seq<Byte>, at: nat): (r: Option<seq<seq<Byte>>>)
    requires at <= |buffer|
    ensures r.Some? ==> forall i :: 0 <= i < |r.value| ==> |r.value[i]| <= INT_MAX
    decreases |buffer| - at
  {
    if at == |buffer| then Some([])
    else if |buffer| - at < 4 then None
    else
      var size := DecodeInt(buffer[at..at + 4]);
      if size < 0 || at + 4 + size > |buffer| then None
      else
        Prefixed([buffer[at + 4..at + 4 + size]], DecodeFields(buffer, at + 4 + size))
  }

  /** What the receiver makes of the next packet: the packet and the bytes after it. */
  function Receive(input: seq<Byte>): (r: Option<(Packet, seq<Byte>)>)
    ensures r.Some? ==> |r.value.1| + 8 <= |input|
  {
    if |input| < 8 then None
    else
      var size := DecodeInt(input[4..8]);
      if size < 0 || 8 + size > |input| then None
      else
        match DecodeFields(input[8..8 + size], 0)
        case None => None
        case Some(fields) => Some((Packet(DecodeInt(input[..4]), fields), input[8 + size..]))
  }

  /** Receiving until the stream is used up. */
  function ReceiveAll(input: seq<Byte>): Option<seq<Packet>>
    decreases |input|
  {
    if input == [] then Some([])
    else
      match Receive(input)
      case None => None
      case Some((p, rest)) =>
        Prefixed([p], ReceiveAll(rest))
  }

  lemma {:induction false} StreamFront(field: seq<Byte>, fields: seq<seq<Byte>>)
    requires |field| <= INT_MAX && forall i :: 0 <= i < |fields| ==> |fields[i]| <= INT_MAX
    ensures Stream([field] + fields) == EncodeInt(|field|) + field + Stream(fields)
    decreases |fields|
  {
    var all := [field] + fields;
    if fields == [] {
      assert all[..0] == [];
      assert Stream(all[..0]) == [];
    } else {
      var n := |fields| - 1;
      assert all[..n + 1] == [field] + fields[..n];
      StreamFront(field, fields[..n]);
      Regroup(EncodeInt(|field|) + field, Stream(fields[..n]), EncodeInt(|fields[n]|), fields[n]);
      assert all[n + 1] == fields[n];
      hide EncodeInt;
    }
  }

  lemma Regroup(h: seq<Byte>, s: seq<Byte>, e: seq<Byte>, f: seq<Byte>)
    ensures h + s + e + f == h + (s + e + f)
  {
  }

  lemma Parts(buffer: seq<Byte>, at: nat, e: seq<Byte>, field: seq<Byte>, tail: seq<Byte>)
    requires at <= |buffer| && |e| == 4 && buffer[at..] == e + field + tail
    ensures at + 4 + |field| <= |buffer|
    ensures buffer[at..at + 4] == e && buffer[at + 4..at + 4 + |field|] == field && buffer[at + 4 + |field|..] == tail
  {
    var s := buffer[at..];
    assert buffer[at..at + 4] == s[..4] && buffer[at + 4..at + 4 + |field|] == s[4..4 + |field|];
    assert buffer[at + 4 + |field|..] == s[4 + |field|..];
  }

  /** The loop decodes what was encoded, from any offset where an encoding starts. */
  lemma {:induction false} FieldsDecode(buffer: seq<Byte>, at: nat, fields: seq<seq<Byte>>)
    requires forall i :: 0 <= i < |fields| ==> |fields[i]| <= INT_MAX
    requires at <= |buffer| && buffer[at..] == Stream(fields)
    ensures DecodeFields(buffer, at) == Some(fields)
    decreases |fields|
  {
    hide DecodeFields, Stream, EncodeInt, DecodeInt;
    if fields == [] {
      NothingLeft(buffer);
      assert |buffer[at..]| == 0;
    } else {
      Unshift(fields);
      FirstPass(buffer, at, fields[0], Stream(fields[1..]));
      FieldsDecode(buffer, at + 4 + |fields[0]|, fields[1..]);
      assert [fields[0]] + fields[1..] == fields;
    }
  }

  lemma Unshift(fields: seq<seq<Byte>>)
    requires fields != [] && forall i :: 0 <= i < |fields| ==> |fields[i]| <= INT_MAX
    ensures Stream(fields) == EncodeInt(|fields[0]|) + fields[0] + Stream(fields[1..])
  {
    assert fields == [fields[0]] + fields[1..];
    StreamFront(fields[0], fields[1..]);
    hide Stream, EncodeInt;
  }

  lemma NothingLeft(buffer: seq<Byte>)
    ensures Stream([]) == [] && DecodeFields(buffer, |buffer|) == Some([])
  {
  }

  // One pass of the loop takes one length and one field.
  lemma FirstPass(buffer: seq<Byte>, at: nat, field: seq<Byte>, tail: seq<Byte>)
    requires |field| <= INT_MAX && at <= |buffer| && buffer[at..] == EncodeInt(|field|) + field + tail
    ensures at + 4 + |field| <= |buffer| && buffer[at + 4 + |field|..] == tail
    ensures DecodeFields(buffer, at) == Prefixed([field], DecodeFields(buffer, at + 4 + |field|))
  {
    Parts(buffer, at, EncodeInt(|field|), field, tail);
    IntRoundTrip(|field|);
    hide EncodeInt, DecodeInt;
  }

  // One successful pass: the size it reads, and what the rest decodes to.
  lemma PassTaken(buffer: seq<Byte>, at: nat)
    requires at < |buffer| && DecodeFields(buffer, at).Some?
    ensures at + 4 <= |buffer|
    ensures var size := DecodeInt(buffer[at..at + 4]);
            && 0 <= size <= INT_MAX && at + 4 + size <= |buffer| && DecodeFields(buffer, at + 4 + size).Some?
            && DecodeFields(buffer, at).value == [buffer[at + 4..at + 4 + size]] + DecodeFields(buffer, at + 4 + size).value
  {
    hide DecodeInt;
  }

  lemma Pass(buffer: seq<Byte>, at: nat, size: nat)
    requires at + 4 + size <= |buffer|
    ensures buffer[at..] == buffer[at..at + 4] + buffer[at + 4..at + 4 + size] + buffer[at + 4 + size..]
  {
  }

  /** Conversely, the loop succeeds only on encodings. */
  lemma {:induction false} DecodedWasEncoded(buffer: seq<Byte>, at: nat)
    requires at <= |buffer| && DecodeFields(buffer, at).Some?
    ensures Stream(DecodeFields(buffer, at).value) == buffer[at..]
    decreases |buffer| - at
  {
    hide *;
    NothingLeft(buffer);
    if at < |buffer| {
      PassTaken(buffer, at);
      var size := DecodeInt(buffer[at..at + 4]);
      DecodedWasEncoded(buffer, at + 4 + size);
      StreamFront(buffer[at + 4..at + 4 + size], DecodeFields(buffer, at + 4 + size).value);
      IntBytesRoundTrip(buffer[at..at + 4]);
      Pass(buffer, at, size);
    }
  }

  lemma PacketDecodes(p: Packet, rest: seq<Byte>)
    requires Fits(p)
    ensures Receive(Serialize(p) + rest) == Some((p, rest))
  {
    var s := Stream(p.fields);
    var input := Serialize(p) + rest;
    hide EncodeInt, DecodeInt, Stream;
    assert input[..4] == EncodeInt(p.op) && input[4..8] == EncodeInt(|s|);
    assert input[8..8 + |s|] == s && input[8 + |s|..] == rest;
    IntRoundTrip(p.op);
    IntRoundTrip(|s|);
    assert s[0..] == s;
    FieldsDecode(s, 0, p.fields);
  }

  lemma ReceivedWasSent(input: seq<Byte>)
    requires Receive(input).Some?
    ensures var (p, rest) := Receive(input).value; Encodes(p) && input == Serialize(p) + rest
  {
    var (p, rest) := Receive(input).value;
    var size := DecodeInt(input[4..8]);
    assert DecodeFields(input[8..8 + size], 0) == Some(p.fields);
    assert p.op == DecodeInt(input[..4]) && rest == input[8 + size..];
    hide EncodeInt, DecodeInt, Stream, Receive, DecodeFields;
    IntBytesRoundTrip(input[..4]);
    IntBytesRoundTrip(input[4..8]);
    DecodedWasEncoded(input[8..8 + size], 0);
    assert Stream(p.fields) == input[8..8 + size];
    Pieces(input, 8 + size);
  }

  lemma Pieces(s: seq<Byte>, end: nat)
    requires 8 <= end <= |s|
    ensures s == s[..4] + s[4..8] + s[8..end] + s[end..]
  {
  }

  /** Packet stream round trip: the concatenation of any packets as they are sent is received as exactly
      these packets and used up. */
  lemma {:induction false} StreamRoundTrip(ps: seq<Packet>)
    requires forall i :: 0 <= i < |ps| ==> Encodes(ps[i]) && Fits(ps[i])
    ensures ReceiveAll(SerializeAll(ps)) == Some(ps)
  {
    if ps != [] {
      PacketDecodes(ps[0], SerializeAll(ps[1..]));
      StreamRoundTrip(ps[1..]);
      hide Receive, Serialize, Stream;
      assert Serialize(ps[0]) != [];
      assert [ps[0]] + ps[1..] == ps;
    }
  }

  /** Conversely, a stream is received as packets only if it is their serialization. */
  lemma {:induction false} OnlySerializedStreams(input: seq<Byte>)
    requires ReceiveAll(input).Some?
    ensures var ps := ReceiveAll(input).value;
            (forall i :: 0 <= i < |ps| ==> Encodes(ps[i])) && SerializeAll(ps) == input
    decreases |input|
  {
    if input != [] {
      var (p, rest) := Receive(input).value;
      ReceivedWasSent(input);
      OnlySerializedStreams(rest);
      hide Receive, Encodes, Serialize;
      var ps := ReceiveAll(rest).value;
      assert ([p] + ps)[1..] == ps;
    }
  }

  /** Who reads two bare ints where a packet was sent gets the length of its buffer and of its first
      field, not the values sent. */
  lemma BareIntsAreLengths(p: Packet)
    requires Fits(p) && p.fields != []
    ensures |Serialize(p)| >= 12
    ensures DecodeInt(Serialize(p)[4..8]) == |Stream(p.fields)|
    ensures DecodeInt(Serialize(p)[8..12]) == |p.fields[0]|
  {
    var s := Stream(p.fields);
    var input := Serialize(p);
    assert p.fields == [p.fields[0]] + p.fields[1..];
    StreamFront(p.fields[0], p.fields[1..]);
    hide EncodeInt, DecodeInt, Stream;
    assert input[4..8] == EncodeInt(|s|) && input[8..12] == s[..4] == EncodeInt(|p.fields[0]|);
    IntRoundTrip(|s|);
    IntRoundTrip(|p.fields[0]|);
  }

  const OP_QUERY_DESALOJADA := 302

  /** An eviction report, an id of 4 bytes and a program counter of 8, is read by the Master as naming
      query 20; it is taken for the query evicted if and only if that is query 20. */
  lemma EvictionReportMisread(id: int, pc: seq<Byte>)
    requires IsInt(id) && |pc| == 8
    ensures var p := Packet(OP_QUERY_DESALOJADA, [EncodeInt(id), pc]);
            && Fits(p) && |Serialize(p)| >= 12 && (DecodeInt(Serialize(p)[4..8]) == id <==> id == 20)
            && DecodeInt(Serialize(p)[8..12]) == 4
  {
    var fields := [EncodeInt(id), pc];
    assert fields[..1] == [EncodeInt(id)] && fields[..1][..0] == [];
    assert |Stream(fields[..1])| == 8;
    assert |Stream(fields)| == 20;
    hide EncodeInt, DecodeInt;
    BareIntsAreLengths(Packet(OP_QUERY_DESALOJADA, fields));
  }

  const OP_DESALOJAR_QUERY := 301
  const OP_REANUDAR_QUERY := 303

  /** An eviction request, an id of 4 bytes, is read by the worker as naming query 8. */
  lemma EvictionRequestMisread(id: int)
    requires IsInt(id)
    ensures var p := Packet(OP_DESALOJAR_QUERY, [EncodeInt(id)]);
            Fits(p) && |Serialize(p)| >= 12 && (DecodeInt(Serialize(p)[4..8]) == id <==> id == 8)
  {
    var fields := [EncodeInt(id)];
    assert fields[..0] == [];
    assert |Stream(fields)| == 8;
    hide EncodeInt, DecodeInt;
    BareIntsAreLengths(Packet(OP_DESALOJAR_QUERY, fields));
  }

  /** An order to resume, an id and a program counter of 4 bytes each and a path with its final NUL, is
      read by the worker as resuming query 20 + |path| at program counter 4: it is taken for the query
      sent, at the counter sent, if and only if these are the id and the counter. */
  lemma ResumeMisread(id: int, pc: int, path: seq<Byte>)
    requires IsInt(id) && IsInt(pc) && 28 + |path| <= INT_MAX
    ensures var p := Packet(OP_REANUDAR_QUERY, [EncodeInt(id), EncodeInt(pc), path]);
            && Fits(p) && |Serialize(p)| >= 12
            && (DecodeInt(Serialize(p)[4..8]) == id <==> id == 20 + |path|)
            && (DecodeInt(Serialize(p)[8..12]) == pc <==> pc == 4)
  {
    var fields := [EncodeInt(id), EncodeInt(pc), path];
    assert fields[..2] == [EncodeInt(id), EncodeInt(pc)] && fields[..2][..1] == [EncodeInt(id)] && fields[..2][..1][..0] == [];
    assert |Stream(fields[..2][..1])| == 8;
    assert |Stream(fields[..2])| == 16;
    assert |Stream(fields)| == 20 + |path|;
    hide EncodeInt, DecodeInt;
    BareIntsAreLengths(Packet(OP_REANUDAR_QUERY, fields));
  }

  /** Elements already decoded, followed by what decoding the rest gives. */
  function Prefixed<T>(list: seq<T>, rest: Option<seq<T>>): Option<seq<T>> {
    match rest
    case None => None
    case Some(r) => Some(list + r)
  }

  lemma PrefixedOne<T>(list: seq<T>, x: T, rest: Option<seq<T>>)
    ensures Prefixed(list, Prefixed([x], rest)) == Prefixed(list + [x], rest)
    ensures Prefixed([], rest) == rest
  {
    if rest.Some? {
      assert list + ([x] + rest.value) == list + [x] + rest.value;
      assert [] + rest.value == rest.value;
    }
  }
}
