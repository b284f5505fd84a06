/** The packet being built and the socket being read, as the buffers and loops they are. */
module Wire {
  import opened Common
  import opened Codec

  // codigo_operacion of a new packet.
  const PAQUETE := 1

  class Outgoing {
    var op: int
    var stream: array<Byte>
    ghost var fields: seq<seq<Byte>>

    ghost predicate Valid()
      reads this, stream
    {
      Encodes(Packet(op, fields)) && stream[..] == Stream(fields)
    }

    // crear_paquete
    constructor ()
      ensures Valid() && fields == [] && op == PAQUETE && fresh(stream)
    {
      op := PAQUETE;
      stream := new Byte[0];
      fields := [];
    }

    // agregar_a_paquete: the buffer is reallocated and the length and bytes copied to its end.
    method Add(value: seq<Byte>)
      requires Valid() && stream.Length + 4 + |value| <= INT_MAX
      modifies this
      ensures Valid() && fields == old(fields) + [value] && op == old(op) && fresh(stream)
      ensures stream[..] == old(stream[..]) + EncodeInt(|value|) + value
    {
      hide EncodeInt, Stream, Encodes;
      ghost var before, after := stream[..], fields + [value];
      assert |before| == stream.Length;
      StreamGrows(op, fields, value);
      stream := CopiedTogether(stream[..], EncodeInt(|value|), value);
      fields := after;
    }

    // serializar_paquete, as enviar_paquete calls it: the number of bytes sent fits an int.
    method Serialize() returns (bytes: array<Byte>)
      requires Valid() && Fits(Packet(op, fields))
      ensures bytes.Length <= INT_MAX && bytes[..] == Codec.Serialize(Packet(op, fields))
    {
      hide EncodeInt, Stream;
      bytes := CopiedTogether(EncodeInt(op), EncodeInt(stream.Length), stream[..]);
    }
  }

  // malloc and three memcpy, one behind the other.
  method CopiedTogether(a: seq<Byte>, b: seq<Byte>, c: seq<Byte>) returns (bytes: array<Byte>)
    ensures fresh(bytes) && bytes[..] == a + b + c
  {
    hide Splice;
    bytes := new Byte[|a| + |b| + |c|];
    ghost var blank := bytes[..];
    CopyInto(bytes, 0, a);
    CopyInto(bytes, |a|, b);
    CopyInto(bytes, |a| + |b|, c);
    ThreeCopies(blank, a, b, c);
  }

  lemma ThreeCopies(blank: seq<Byte>, a: seq<Byte>, b: seq<Byte>, c: seq<Byte>)
    requires |blank| == |a| + |b| + |c|
    ensures Splice(Splice(Splice(blank, 0, a), |a|, b), |a| + |b|, c) == a + b + c
  {
    var one := Splice(blank, 0, a);
    var two := Splice(one, |a|, b);
    var three := Splice(two, |a| + |b|, c);
    hide Splice;
    forall k | 0 <= k < |blank| ensures |three| == |blank| && three[k] == (a + b + c)[k] {
      SpliceAt(blank, 0, a, k);
      SpliceAt(one, |a|, b, k);
      SpliceAt(two, |a| + |b|, c, k);
    }
    SpliceLength(blank, 0, a);
    SpliceLength(one, |a|, b);
    SpliceLength(two, |a| + |b|, c);
  }

  lemma StreamGrows(op: int, fields: seq<seq<Byte>>, value: seq<Byte>)
    requires Encodes(Packet(op, fields)) && |Stream(fields)| + 4 + |value| <= INT_MAX
    ensures Encodes(Packet(op, fields + [value])) && Stream(fields + [value]) == Stream(fields) + EncodeInt(|value|) + value
  {
    var all := fields + [value];
    assert all[..|fields|] == fields;
    hide EncodeInt;
  }

  // The decoding loop of recibir_paquete; None where the C loop would leave the buffer.
  method DecodeBuffer(buffer: seq<Byte>) returns (values: Option<seq<seq<Byte>>>)
    ensures values == DecodeFields(buffer, 0)
  {
    hide DecodeInt;
    var list: seq<seq<Byte>> := [];
    var offset := 0;
    PrefixedOne(list, [], DecodeFields(buffer, 0));
    while offset < |buffer|
      invariant 0 <= offset <= |buffer|
      invariant DecodeFields(buffer, 0) == Prefixed(list, DecodeFields(buffer, offset))
    {
      if |buffer| - offset < 4 {
        return None;
      }
      var size := DecodeInt(buffer[offset..offset + 4]);
      if size < 0 || offset + 4 + size > |buffer| {
        return None;
      }
      PrefixedOne(list, buffer[offset + 4..offset + 4 + size], DecodeFields(buffer, offset + 4 + size));
      list := list + [buffer[offset + 4..offset + 4 + size]];
      offset := offset + 4 + size;
    }
    assert list + [] == list;
    return Some(list);
  }

  // The length and the buffer behind an opcode, as the specification of a packet has them.
  lemma SeenFromBehind(s: seq<Byte>)
    requires |s| >= 8
    ensures s[4..][..4] == s[4..8] && |s[4..]| == |s| - 4
    ensures var size := DecodeInt(s[4..8]);
            0 <= size <= |s| - 8 ==> s[4..][4..4 + size] == s[8..8 + size] && s[4..][4 + size..] == s[8 + size..]
  {
    hide DecodeInt;
    var size := DecodeInt(s[4..8]);
    SliceOfRest(s, 4, 0, 4);
    if 0 <= size <= |s| - 8 {
      SliceOfRest(s, 4, 4, 4 + size);
      SliceOfRest(s, 4, 4 + size, |s| - 4);
    }
  }

  /** The bytes that have arrived and were not read yet; when they run out the peer has closed. */
  class Socket {
    var incoming: seq<Byte>

    // recv with MSG_WAITALL; fewer bytes only when the peer closed.
    method Take(n: nat) returns (bytes: seq<Byte>)
      modifies this
      ensures bytes + incoming == old(incoming) && |bytes| == if n <= |old(incoming)| then n else |old(incoming)|
    {
      var k := if n <= |incoming| then n else |incoming|;
      bytes := incoming[..k];
      incoming := incoming[k..];
    }

    // recibir_operacion: -1 when nothing came; when the peer closed within the int, the bytes that came
    // with whatever the others were.
    method ReceiveOperation() returns (op: int)
      modifies this
      ensures |old(incoming)| >= 4 ==> op == DecodeInt(old(incoming)[..4]) && incoming == old(incoming)[4..]
      ensures |old(incoming)| < 4 ==> incoming == []
      ensures |old(incoming)| == 0 ==> op == -1
      ensures 0 < |old(incoming)| < 4 ==> IsInt(op) && EncodeInt(op)[..|old(incoming)|] == old(incoming)
    {
      var bytes := Take(4);
      if bytes == [] {
        return -1;
      }
      var blank: seq<Byte> := seq(4 - |bytes|, _ => 0);
      assert |blank| == 4 - |bytes|;
      var garbage: seq<Byte> :| |garbage| == 4 - |bytes|;
      IntBytesRoundTrip(bytes + garbage);
      op := DecodeInt(bytes + garbage);
      assert |bytes| == 4 ==> bytes + garbage == bytes;
      assert (bytes + garbage)[..|bytes|] == bytes;
      hide DecodeInt, EncodeInt;
    }

    // recibir_buffer
    method ReceiveBuffer() returns (buffer: Option<seq<Byte>>)
      modifies this
      ensures var s := old(incoming);
              if |s| >= 4 && 0 <= DecodeInt(s[..4]) <= |s| - 4
              then buffer == Some(s[4..4 + DecodeInt(s[..4])]) && incoming == s[4 + DecodeInt(s[..4])..]
              else buffer == None
    {
      ghost var all := incoming;
      var length := Take(4);
      assert |all| >= 4 ==> length == all[..4] && incoming == all[4..];
      hide DecodeInt;
      if |length| < 4 || DecodeInt(length) < 0 {
        return None;
      }
      var bytes := Take(DecodeInt(length));
      if |bytes| < DecodeInt(length) {
        return None;
      }
      assert all == length + bytes + incoming;
      assert bytes == all[4..4 + |bytes|] && incoming == all[4 + |bytes|..];
      return Some(bytes);
    }

    // recibir_paquete
    method ReceivePacket() returns (values: Option<seq<seq<Byte>>>)
      modifies this
      ensures var s := old(incoming);
              if |s| >= 4 && 0 <= DecodeInt(s[..4]) <= |s| - 4
              then values == DecodeFields(s[4..4 + DecodeInt(s[..4])], 0) && incoming == s[4 + DecodeInt(s[..4])..]
              else values == None
    {
      hide DecodeInt;
      var received := ReceiveBuffer();
      if received.None? {
        return None;
      }
      values := DecodeBuffer(received.value);
    }

    // One opcode and the packet behind it.
    method ReceiveOne() returns (packet: Option<Packet>)
      modifies this
      ensures match Receive(old(incoming))
              case None => packet == None
              case Some((p, rest)) => packet == Some(p) && incoming == rest
    {
      ghost var before := incoming;
      hide DecodeInt, DecodeFields;
      if |incoming| < 8 {
        return None;
      }
      SeenFromBehind(before);
      var op := ReceiveOperation();
      var fields := ReceivePacket();
      if fields.None? {
        return None;
      }
      return Some(Packet(op, fields.value));
    }

    /** Receiving packets until the peer closes. */
    method ReceiveAllPackets() returns (packets: Option<seq<Packet>>)
      modifies this
      ensures packets == ReceiveAll(old(incoming))
    {
      var list: seq<Packet> := [];
      PrefixedOne(list, Packet(0, []), ReceiveAll(incoming));
      hide Receive;
      while incoming != []
        invariant ReceiveAll(old(incoming)) == Prefixed(list, ReceiveAll(incoming))
        decreases |incoming|
      {
        var packet := ReceiveOne();
        if packet.None? {
          return None;
        }
        PrefixedOne(list, packet.value, ReceiveAll(incoming));
        list := list + [packet.value];
      }
      assert list + [] == list;
      return Some(list);
    }
  }
}
