/**
 The generated encoders and decoders of `livepeer.payments.v1`, in the form they have: methods that advance a
 reader or append to a writer. Each is proved to compute what module Messages specifies.
 */
module Codec {
  import opened Wrappers
  import opened Wire
  import opened Messages

  class BinaryReader {
    const buf: Bytes
    var pos: nat

    constructor (buf: Bytes)
      ensures this.buf == buf && pos == 0
    {
      this.buf := buf;
      pos := 0;
    }

    method Uint32() returns (r: Result<nat, Error>)
      modifies this`pos
      ensures match ReadUint32(buf, old(pos))
        case Done(v, next) => r == Ok(v) && pos == next
        case Fail(e) => r == Err(e) && pos == old(pos)
    {
      match ReadUint32(buf, pos)
      case Done(v, next) => pos := next; r := Ok(v);
      case Fail(e) => r := Err(e);
    }

    method Int64() returns (r: Result<int, Error>)
      modifies this`pos
      ensures match ReadInt64(buf, old(pos))
        case Done(v, next) => r == Ok(v) && pos == next
        case Fail(e) => r == Err(e) && pos == old(pos)
    {
      match ReadInt64(buf, pos)
      case Done(v, next) => pos := next; r := Ok(v);
      case Fail(e) => r := Err(e);
    }

    method Octets() returns (r: Result<Bytes, Error>)
      modifies this`pos
      ensures match ReadBytes(buf, old(pos))
        case Done(v, next) => r == Ok(v) && pos == next
        case Fail(e) => r == Err(e) && pos == old(pos)
    {
      match ReadBytes(buf, pos)
      case Done(v, next) => pos := next; r := Ok(v);
      case Fail(e) => r := Err(e);
    }

    method Skip(wireType: nat) returns (r: Result<(), Error>)
      requires pos <= |buf|
      modifies this`pos
      ensures match Wire.Skip(buf, old(pos), wireType)
        case Ok(next) => r.Ok? && pos == next
        case Err(e) => r == Err(e) && pos == old(pos)
    {
      match Wire.Skip(buf, pos, wireType)
      case Ok(next) => pos := next; r := Ok(());
      case Err(e) => r := Err(e);
    }
  }

  // A decode loop stops at the end of the buffer, or `length` bytes on.

  method DecodePriceInfo(reader: BinaryReader, length: Option<nat>) returns (r: Result<PriceInfo, Error>)
    requires reader.pos <= |reader.buf|
    modifies reader`pos
    ensures reader.pos <= |reader.buf|
    ensures match DecodeFields(PriceM(BASE_PRICE_INFO), reader.buf, old(reader.pos),
                               if length.None? then |reader.buf| else old(reader.pos) + length.value)
      case Done(m, next) => r == Ok(m.price) && reader.pos == next
      case Fail(e) => r == Err(e)
  {
    hide DecodeFields, ReadNested, ReadUint32, ReadInt64, ReadBytes, Wire.Skip;
    var end := if length.None? then |reader.buf| else reader.pos + length.value;
    var message := BASE_PRICE_INFO;
    while reader.pos < end
      invariant reader.pos <= |reader.buf|
      invariant DecodeFields(PriceM(message), reader.buf, reader.pos, end)
        == DecodeFields(PriceM(BASE_PRICE_INFO), reader.buf, old(reader.pos), end)
      decreases |reader.buf| - reader.pos
    {
      DecodeTurn(PriceM(message), reader.buf, reader.pos, end);
      var tag :- reader.Uint32();
      match tag / 8 {
        case 1 =>
          if tag == 8 {
            var v :- reader.Int64();
            message := message.(pricePerUnit := v);
            continue;
          }
        case 2 =>
          if tag == 16 {
            var v :- reader.Int64();
            message := message.(pixelsPerUnit := v);
            continue;
          }
        case 3 =>
          if tag == 24 {
            var v :- reader.Uint32();
            message := message.(capability := v);
            continue;
          }
        case 4 =>
          if tag == 34 {
            var v :- reader.Octets();
            message := message.(constraint := v);
            continue;
          }
        case _ =>
      }
      if tag % 8 == 4 || tag == 0 {
        break;
      }
      var _ :- reader.Skip(tag % 8);
    }
    DecodeTurn(PriceM(message), reader.buf, reader.pos, end);
    return Ok(message);
  }

  method DecodeTicketExpirationParams(reader: BinaryReader, length: Option<nat>)
    returns (r: Result<TicketExpirationParams, Error>)
    requires reader.pos <= |reader.buf|
    modifies reader`pos
    ensures reader.pos <= |reader.buf|
    ensures match DecodeFields(ExpirationM(BASE_EXPIRATION_PARAMS), reader.buf, old(reader.pos),
                               if length.None? then |reader.buf| else old(reader.pos) + length.value)
      case Done(m, next) => r == Ok(m.expiration) && reader.pos == next
      case Fail(e) => r == Err(e)
  {
    hide DecodeFields, ReadNested, ReadUint32, ReadInt64, ReadBytes, Wire.Skip;
    var end := if length.None? then |reader.buf| else reader.pos + length.value;
    var message := BASE_EXPIRATION_PARAMS;
    while reader.pos < end
      invariant reader.pos <= |reader.buf|
      invariant DecodeFields(ExpirationM(message), reader.buf, reader.pos, end)
        == DecodeFields(ExpirationM(BASE_EXPIRATION_PARAMS), reader.buf, old(reader.pos), end)
      decreases |reader.buf| - reader.pos
    {
      DecodeTurn(ExpirationM(message), reader.buf, reader.pos, end);
      var tag :- reader.Uint32();
      match tag / 8 {
        case 1 =>
          if tag == 8 {
            var v :- reader.Int64();
            message := message.(creationRound := v);
            continue;
          }
        case 2 =>
          if tag == 18 {
            var v :- reader.Octets();
            message := message.(creationRoundBlockHash := v);
            continue;
          }
        case _ =>
      }
      if tag % 8 == 4 || tag == 0 {
        break;
      }
      var _ :- reader.Skip(tag % 8);
    }
    DecodeTurn(ExpirationM(message), reader.buf, reader.pos, end);
    return Ok(message);
  }

  method DecodeTicketSenderParams(reader: BinaryReader, length: Option<nat>)
    returns (r: Result<TicketSenderParams, Error>)
    requires reader.pos <= |reader.buf|
    modifies reader`pos
    ensures reader.pos <= |reader.buf|
    ensures match DecodeFields(SenderM(BASE_SENDER_PARAMS), reader.buf, old(reader.pos),
                               if length.None? then |reader.buf| else old(reader.pos) + length.value)
      case Done(m, next) => r == Ok(m.sender) && reader.pos == next
      case Fail(e) => r == Err(e)
  {
    hide DecodeFields, ReadNested, ReadUint32, ReadInt64, ReadBytes, Wire.Skip;
    var end := if length.None? then |reader.buf| else reader.pos + length.value;
    var message := BASE_SENDER_PARAMS;
    while reader.pos < end
      invariant reader.pos <= |reader.buf|
      invariant DecodeFields(SenderM(message), reader.buf, reader.pos, end)
        == DecodeFields(SenderM(BASE_SENDER_PARAMS), reader.buf, old(reader.pos), end)
      decreases |reader.buf| - reader.pos
    {
      DecodeTurn(SenderM(message), reader.buf, reader.pos, end);
      var tag :- reader.Uint32();
      match tag / 8 {
        case 1 =>
          if tag == 8 {
            var v :- reader.Uint32();
            message := message.(senderNonce := v);
            continue;
          }
        case 2 =>
          if tag == 18 {
            var v :- reader.Octets();
            message := message.(sig := v);
            continue;
          }
        case _ =>
      }
      if tag % 8 == 4 || tag == 0 {
        break;
      }
      var _ :- reader.Skip(tag % 8);
    }
    DecodeTurn(SenderM(message), reader.buf, reader.pos, end);
    return Ok(message);
  }

  method DecodeTicketParams(reader: BinaryReader, length: Option<nat>) returns (r: Result<TicketParams, Error>)
    requires reader.pos <= |reader.buf|
    modifies reader`pos
    ensures reader.pos <= |reader.buf|
    ensures match DecodeFields(ParamsM(BASE_TICKET_PARAMS), reader.buf, old(reader.pos),
                               if length.None? then |reader.buf| else old(reader.pos) + length.value)
      case Done(m, next) => r == Ok(m.params) && reader.pos == next
      case Fail(e) => r == Err(e)
  {
    hide DecodeFields, ReadNested, ReadUint32, ReadInt64, ReadBytes, Wire.Skip;
    var end := if length.None? then |reader.buf| else reader.pos + length.value;
    var message := BASE_TICKET_PARAMS;
    while reader.pos < end
      invariant reader.pos <= |reader.buf|
      invariant DecodeFields(ParamsM(message), reader.buf, reader.pos, end)
        == DecodeFields(ParamsM(BASE_TICKET_PARAMS), reader.buf, old(reader.pos), end)
      decreases |reader.buf| - reader.pos
    {
      DecodeTurn(ParamsM(message), reader.buf, reader.pos, end);
      var tag :- reader.Uint32();
      match tag / 8 {
        case 1 =>
          if tag == 10 {
            var v :- reader.Octets();
            message := message.(recipient := v);
            continue;
          }
        case 2 =>
          if tag == 18 {
            var v :- reader.Octets();
            message := message.(faceValue := v);
            continue;
          }
        case 3 =>
          if tag == 26 {
            var v :- reader.Octets();
            message := message.(winProb := v);
            continue;
          }
        case 4 =>
          if tag == 34 {
            var v :- reader.Octets();
            message := message.(recipientRandHash := v);
            continue;
          }
        case 5 =>
          if tag == 42 {
            var v :- reader.Octets();
            message := message.(seed := v);
            continue;
          }
        case 6 =>
          if tag == 50 {
            var v :- reader.Octets();
            message := message.(expirationBlock := v);
            continue;
          }
        case 7 =>
          if tag == 58 {
            NestedTurn(ExpirationM(BASE_EXPIRATION_PARAMS), reader.buf, reader.pos);
            var length :- reader.Uint32();
            var v :- DecodeTicketExpirationParams(reader, Some(length));
            message := message.(expirationParams := Some(v));
            continue;
          }
        case _ =>
      }
      if tag % 8 == 4 || tag == 0 {
        break;
      }
      var _ :- reader.Skip(tag % 8);
    }
    DecodeTurn(ParamsM(message), reader.buf, reader.pos, end);
    return Ok(message);
  }

  /** The fields of a payment, one by one. */
  lemma PaymentField(x: Payment, tag: nat, buf: Bytes, pos: nat)
    requires pos <= |buf|
    ensures Knows(PaymentM(x), tag) <==> tag == 10 || tag == 18 || tag == 26 || tag == 34 || tag == 42
    ensures tag == 18 ==>
      var b := ReadBytes(buf, pos);
      ReadField(PaymentM(x), tag, buf, pos)
        == if b.Fail? then Fail(b.error) else Done(PaymentM(x.(sender := b.value)), b.pos)
    ensures tag == 10 ==>
      var n := ReadNested(ParamsM(BASE_TICKET_PARAMS), buf, pos);
      ReadField(PaymentM(x), tag, buf, pos)
        == if n.Fail? then Fail(n.error) else Done(PaymentM(x.(ticketParams := Some(n.value.params))), n.pos)
    ensures tag == 26 ==>
      var n := ReadNested(ExpirationM(BASE_EXPIRATION_PARAMS), buf, pos);
      ReadField(PaymentM(x), tag, buf, pos)
        == if n.Fail? then Fail(n.error) else Done(PaymentM(x.(expirationParams := Some(n.value.expiration))), n.pos)
    ensures tag == 34 ==>
      var n := ReadNested(SenderM(BASE_SENDER_PARAMS), buf, pos);
      ReadField(PaymentM(x), tag, buf, pos)
        == if n.Fail? then Fail(n.error)
           else Done(PaymentM(x.(ticketSenderParams := x.ticketSenderParams + [n.value.sender])), n.pos)
    ensures tag == 42 ==>
      var n := ReadNested(PriceM(BASE_PRICE_INFO), buf, pos);
      ReadField(PaymentM(x), tag, buf, pos)
        == if n.Fail? then Fail(n.error) else Done(PaymentM(x.(expectedPrice := Some(n.value.price))), n.pos)
  {
    hide ReadNested, ReadBytes;
  }

  method DecodePayment(reader: BinaryReader, length: Option<nat>) returns (r: Result<Payment, Error>)
    requires reader.pos <= |reader.buf|
    modifies reader`pos
    ensures reader.pos <= |reader.buf|
    ensures match DecodeFields(PaymentM(BASE_PAYMENT), reader.buf, old(reader.pos),
                               if length.None? then |reader.buf| else old(reader.pos) + length.value)
      case Done(m, next) => r == Ok(m.payment) && reader.pos == next
      case Fail(e) => r == Err(e)
  {
    hide DecodeFields, ReadField, Knows, ReadNested, ReadUint32, ReadBytes, Wire.Skip;
    var end := if length.None? then |reader.buf| else reader.pos + length.value;
    var message := BASE_PAYMENT;
    while reader.pos < end
      invariant reader.pos <= |reader.buf|
      invariant DecodeFields(PaymentM(message), reader.buf, reader.pos, end)
        == DecodeFields(PaymentM(BASE_PAYMENT), reader.buf, old(reader.pos), end)
      decreases |reader.buf| - reader.pos
    {
      DecodeTurn(PaymentM(message), reader.buf, reader.pos, end);
      var tag :- reader.Uint32();
      PaymentField(message, tag, reader.buf, reader.pos);
      match tag / 8 {
        case 1 =>
          if tag == 10 {
            NestedTurn(ParamsM(BASE_TICKET_PARAMS), reader.buf, reader.pos);
            var length :- reader.Uint32();
            var v :- DecodeTicketParams(reader, Some(length));
            message := message.(ticketParams := Some(v));
            continue;
          }
        case 2 =>
          if tag == 18 {
            var v :- reader.Octets();
            message := message.(sender := v);
            continue;
          }
        case 3 =>
          if tag == 26 {
            NestedTurn(ExpirationM(BASE_EXPIRATION_PARAMS), reader.buf, reader.pos);
            var length :- reader.Uint32();
            var v :- DecodeTicketExpirationParams(reader, Some(length));
            message := message.(expirationParams := Some(v));
            continue;
          }
        case 4 =>
          if tag == 34 {
            NestedTurn(SenderM(BASE_SENDER_PARAMS), reader.buf, reader.pos);
            var length :- reader.Uint32();
            var v :- DecodeTicketSenderParams(reader, Some(length));
            message := message.(ticketSenderParams := message.ticketSenderParams + [v]);
            continue;
          }
        case 5 =>
          if tag == 42 {
            NestedTurn(PriceM(BASE_PRICE_INFO), reader.buf, reader.pos);
            var length :- reader.Uint32();
            var v :- DecodePriceInfo(reader, Some(length));
            message := message.(expectedPrice := Some(v));
            continue;
          }
        case _ =>
      }
      if tag % 8 == 4 || tag == 0 {
        break;
      }
      var _ :- reader.Skip(tag % 8);
    }
    DecodeTurn(PaymentM(message), reader.buf, reader.pos, end);
    return Ok(message);
  }

  class BinaryWriter {
    var out: Bytes
    var stack: seq<Bytes>

    constructor ()
      ensures out == [] && stack == []
    {
      out, stack := [], [];
    }

    method Uint32(v: int) returns (r: Outcome<Error>)
      modifies this`out
      ensures r == if IsUint32(v) then Pass else Thrown(ValueTooLarge)
      ensures out == if IsUint32(v) then old(out) + Varint(v) else old(out)
    {
      if !IsUint32(v) {
        return Thrown(ValueTooLarge);
      }
      out := out + Varint(v);
      return Pass;
    }

    /** `writer.uint32(..)` of a generated field tag, which is always in range. */
    method Tag(tag: nat)
      requires IsUint32(tag)
      modifies this`out
      ensures out == old(out) + Varint(tag)
    {
      out := out + Varint(tag);
    }

    method Int64(v: int)
      requires IsInt64(v)
      modifies this`out
      ensures out == old(out) + Varint(FromInt64(v))
    {
      out := out + Varint(FromInt64(v));
    }

    method Octets(v: Bytes) returns (r: Outcome<Error>)
      modifies this`out
      ensures r == if IsUint32(|v|) then Pass else Thrown(ValueTooLarge)
      ensures out == if IsUint32(|v|) then old(out) + Varint(|v|) + v else old(out)
    {
      r := Uint32(|v|);
      if r.Pass? {
        out := out + v;
      }
    }

    /** Starts a submessage: what was written so far waits on the stack. */
    method Fork()
      modifies this
      ensures out == [] && stack == old(stack) + [old(out)]
    {
      stack := stack + [out];
      out := [];
    }

    /** Ends the innermost submessage: its length and its bytes are appended to what waited. */
    method Join() returns (r: Outcome<Error>)
      requires stack != []
      modifies this
      ensures r == if IsUint32(|old(out)|) then Pass else Thrown(ValueTooLarge)
      ensures stack == old(stack)[..|old(stack)| - 1]
      ensures r.Pass? ==> out == old(stack)[|old(stack)| - 1] + Varint(|old(out)|) + old(out)
    {
      var chunk := out;
      out := stack[|stack| - 1];
      stack := stack[..|stack| - 1];
      r := Octets(chunk);
    }
  }

  // One field of a generated encoder: nothing for the default value, else the tag and the value.

  method EncodeBytes(no: nat, v: Bytes, writer: BinaryWriter) returns (r: Outcome<Error>)
    requires IsUint32(no * 8 + 2)
    modifies writer`out
    ensures r.Pass? <==> IsUint32(|v|)
    ensures r.Pass? ==> writer.out == old(writer.out) + Flatten(BytesRecord(no, v))
  {
    if |v| != 0 {
      writer.Tag(no * 8 + 2);
      :- writer.Octets(v);
      FlattenOne(Record(no, LenBody(v)));
    }
    return Pass;
  }

  method EncodeUint32(no: nat, v: int, writer: BinaryWriter) returns (r: Outcome<Error>)
    requires IsUint32(no * 8)
    modifies writer`out
    ensures r.Pass? <==> IsUint32(v)
    ensures r.Pass? ==> writer.out == old(writer.out) + Flatten(IntRecord(no, v))
  {
    if v != 0 {
      writer.Tag(no * 8);
      :- writer.Uint32(v);
      FlattenOne(Record(no, VarintBody(Varint(v))));
    }
    return Pass;
  }

  method EncodeInt64(no: nat, v: int, writer: BinaryWriter) returns (r: Outcome<Error>)
    requires IsUint32(no * 8)
    modifies writer`out
    ensures r.Pass? <==> IsInt64(v)
    ensures r.Pass? ==> writer.out == old(writer.out) + Flatten(IntRecord(no, v))
  {
    if v != 0 {
      if !IsInt64(v) {
        return Thrown(ValueTooLarge);
      }
      writer.Tag(no * 8);
      writer.Int64(v);
      FlattenOne(Record(no, VarintBody(Varint(FromInt64(v)))));
    }
    return Pass;
  }

  lemma FlattenOne(r: Record)
    ensures Flatten([r]) == RecordBytes(r)
  {
    assert [r][1..] == [];
    assert RecordBytes(r) + [] == RecordBytes(r);
  }

  lemma Extend(out: Bytes, rs: seq<Record>, more: seq<Record>)
    ensures out + Flatten(rs + more) == out + Flatten(rs) + Flatten(more)
  {
    FlattenAppend(rs, more);
  }

  lemma NothingWritten(out: Bytes)
    ensures out + Flatten([]) == out
  {
  }

  method EncodePriceInfo(message: PriceInfo, writer: BinaryWriter) returns (r: Outcome<Error>)
    modifies writer
    ensures r.Pass? <==> PriceInRange(message)
    ensures r.Pass? ==> writer.out == old(writer.out) + Flatten(PriceRecords(message))
    ensures r.Pass? ==> writer.stack == old(writer.stack)
  {
    hide Flatten;
    ghost var out := writer.out;
    :- EncodeInt64(1, message.pricePerUnit, writer);
    ghost var rs := IntRecord(1, message.pricePerUnit);
    :- EncodeInt64(2, message.pixelsPerUnit, writer);
    Extend(out, rs, IntRecord(2, message.pixelsPerUnit));
    rs := rs + IntRecord(2, message.pixelsPerUnit);
    :- EncodeUint32(3, message.capability, writer);
    Extend(out, rs, IntRecord(3, message.capability));
    rs := rs + IntRecord(3, message.capability);
    :- EncodeBytes(4, message.constraint, writer);
    Extend(out, rs, BytesRecord(4, message.constraint));
    rs := rs + BytesRecord(4, message.constraint);
    return Pass;
  }

  /** `PriceInfo.encode(x, writer.uint32(tag).fork()).join()` for field `no`. */
  method EncodeNestedPriceInfo(no: nat, x: PriceInfo, writer: BinaryWriter) returns (r: Outcome<Error>)
    requires IsUint32(no * 8 + 2)
    modifies writer
    ensures r.Pass? <==> NestedPriceInRange(x)
    ensures r.Pass? ==> writer.out == old(writer.out) + Flatten([Record(no, LenBody(Flatten(PriceRecords(x))))])
    ensures r.Pass? ==> writer.stack == old(writer.stack)
  {
    hide Flatten, Varint;
    writer.Tag(no * 8 + 2);
    writer.Fork();
    assert writer.stack[..|writer.stack| - 1] == old(writer.stack);
    :- EncodePriceInfo(x, writer);
    ghost var raw := Flatten(PriceRecords(x));
    assert writer.out == raw;
    :- writer.Join();
    FlattenOne(Record(no, LenBody(raw)));
    return Pass;
  }

  method EncodeTicketExpirationParams(message: TicketExpirationParams, writer: BinaryWriter) returns (r: Outcome<Error>)
    modifies writer
    ensures r.Pass? <==> ExpirationInRange(message)
    ensures r.Pass? ==> writer.out == old(writer.out) + Flatten(ExpirationRecords(message))
    ensures r.Pass? ==> writer.stack == old(writer.stack)
  {
    hide Flatten;
    ghost var out := writer.out;
    :- EncodeInt64(1, message.creationRound, writer);
    ghost var rs := IntRecord(1, message.creationRound);
    :- EncodeBytes(2, message.creationRoundBlockHash, writer);
    Extend(out, rs, BytesRecord(2, message.creationRoundBlockHash));
    rs := rs + BytesRecord(2, message.creationRoundBlockHash);
    return Pass;
  }

  /** `TicketExpirationParams.encode(x, writer.uint32(tag).fork()).join()` for field `no`. */
  method EncodeNestedTicketExpirationParams(no: nat, x: TicketExpirationParams, writer: BinaryWriter)
    returns (r: Outcome<Error>)
    requires IsUint32(no * 8 + 2)
    modifies writer
    ensures r.Pass? <==> NestedExpirationInRange(x)
    ensures r.Pass? ==> writer.out == old(writer.out) + Flatten([Record(no, LenBody(Flatten(ExpirationRecords(x))))])
    ensures r.Pass? ==> writer.stack == old(writer.stack)
  {
    hide Flatten, Varint;
    writer.Tag(no * 8 + 2);
    writer.Fork();
    assert writer.stack[..|writer.stack| - 1] == old(writer.stack);
    :- EncodeTicketExpirationParams(x, writer);
    ghost var raw := Flatten(ExpirationRecords(x));
    assert writer.out == raw;
    :- writer.Join();
    FlattenOne(Record(no, LenBody(raw)));
    return Pass;
  }

  method EncodeTicketSenderParams(message: TicketSenderParams, writer: BinaryWriter) returns (r: Outcome<Error>)
    modifies writer
    ensures r.Pass? <==> SenderInRange(message)
    ensures r.Pass? ==> writer.out == old(writer.out) + Flatten(SenderRecords(message))
    ensures r.Pass? ==> writer.stack == old(writer.stack)
  {
    hide Flatten;
    ghost var out := writer.out;
    :- EncodeUint32(1, message.senderNonce, writer);
    ghost var rs := IntRecord(1, message.senderNonce);
    :- EncodeBytes(2, message.sig, writer);
    Extend(out, rs, BytesRecord(2, message.sig));
    rs := rs + BytesRecord(2, message.sig);
    return Pass;
  }

  /** `TicketSenderParams.encode(x, writer.uint32(tag).fork()).join()` for field `no`. */
  method EncodeNestedTicketSenderParams(no: nat, x: TicketSenderParams, writer: BinaryWriter)
    returns (r: Outcome<Error>)
    requires IsUint32(no * 8 + 2)
    modifies writer
    ensures r.Pass? <==> NestedSenderInRange(x)
    ensures r.Pass? ==> writer.out == old(writer.out) + Flatten([Record(no, LenBody(Flatten(SenderRecords(x))))])
    ensures r.Pass? ==> writer.stack == old(writer.stack)
  {
    hide Flatten, Varint;
    writer.Tag(no * 8 + 2);
    writer.Fork();
    assert writer.stack[..|writer.stack| - 1] == old(writer.stack);
    :- EncodeTicketSenderParams(x, writer);
    ghost var raw := Flatten(SenderRecords(x));
    assert writer.out == raw;
    :- writer.Join();
    FlattenOne(Record(no, LenBody(raw)));
    return Pass;
  }

  method EncodeTicketParams(message: TicketParams, writer: BinaryWriter) returns (r: Outcome<Error>)
    modifies writer
    ensures r.Pass? <==> ParamsInRange(message)
    ensures r.Pass? ==> writer.out == old(writer.out) + Flatten(ParamsRecords(message))
    ensures r.Pass? ==> writer.stack == old(writer.stack)
  {
    hide Flatten;
    ghost var out := writer.out;
    :- EncodeBytes(1, message.recipient, writer);
    ghost var rs := BytesRecord(1, message.recipient);
    :- EncodeBytes(2, message.faceValue, writer);
    Extend(out, rs, BytesRecord(2, message.faceValue));
    rs := rs + BytesRecord(2, message.faceValue);
    :- EncodeBytes(3, message.winProb, writer);
    Extend(out, rs, BytesRecord(3, message.winProb));
    rs := rs + BytesRecord(3, message.winProb);
    :- EncodeBytes(4, message.recipientRandHash, writer);
    Extend(out, rs, BytesRecord(4, message.recipientRandHash));
    rs := rs + BytesRecord(4, message.recipientRandHash);
    :- EncodeBytes(5, message.seed, writer);
    Extend(out, rs, BytesRecord(5, message.seed));
    rs := rs + BytesRecord(5, message.seed);
    :- EncodeBytes(6, message.expirationBlock, writer);
    Extend(out, rs, BytesRecord(6, message.expirationBlock));
    rs := rs + BytesRecord(6, message.expirationBlock);
    if message.expirationParams.Some? {
      :- EncodeNestedTicketExpirationParams(7, message.expirationParams.value, writer);
    } else {
      NothingWritten(writer.out);
    }
    Extend(out, rs, ExpirationField(7, message.expirationParams));
    rs := rs + ExpirationField(7, message.expirationParams);
    return Pass;
  }

  /** `TicketParams.encode(x, writer.uint32(tag).fork()).join()` for field `no`. */
  method EncodeNestedTicketParams(no: nat, x: TicketParams, writer: BinaryWriter) returns (r: Outcome<Error>)
    requires IsUint32(no * 8 + 2)
    modifies writer
    ensures r.Pass? <==> ParamsInRange(x) && IsUint32(|Flatten(ParamsRecords(x))|)
    ensures r.Pass? ==> writer.out == old(writer.out) + Flatten([Record(no, LenBody(Flatten(ParamsRecords(x))))])
    ensures r.Pass? ==> writer.stack == old(writer.stack)
  {
    hide Flatten, Varint;
    writer.Tag(no * 8 + 2);
    writer.Fork();
    assert writer.stack[..|writer.stack| - 1] == old(writer.stack);
    :- EncodeTicketParams(x, writer);
    ghost var raw := Flatten(ParamsRecords(x));
    assert writer.out == raw;
    :- writer.Join();
    FlattenOne(Record(no, LenBody(raw)));
    return Pass;
  }

  lemma {:induction false} SendersSnoc(no: nat, xs: seq<TicketSenderParams>, x: TicketSenderParams)
    requires SenderInRange(x) && forall i | 0 <= i < |xs| :: SenderInRange(xs[i])
    ensures SendersField(no, xs + [x]) == SendersField(no, xs) + [Record(no, LenBody(Flatten(SenderRecords(x))))]
  {
    if xs == [] {
      assert xs + [x] == [x];
    } else {
      assert (xs + [x])[0] == xs[0] && (xs + [x])[1..] == xs[1..] + [x];
      SendersSnoc(no, xs[1..], x);
    }
  }

  /** The loop over the tickets of a payment. */
  method EncodeAllTicketSenderParams(vs: seq<TicketSenderParams>, writer: BinaryWriter) returns (r: Outcome<Error>)
    modifies writer
    ensures r.Pass? <==> forall i | 0 <= i < |vs| :: NestedSenderInRange(vs[i])
    ensures r.Pass? ==> forall i | 0 <= i < |vs| :: SenderInRange(vs[i])
    ensures r.Pass? ==> writer.out == old(writer.out) + Flatten(SendersField(4, vs))
    ensures r.Pass? ==> writer.stack == old(writer.stack)
  {
    hide Flatten, SendersField;
    NoSenders();
    NothingWritten(writer.out);
    var i := 0;
    while i < |vs|
      invariant 0 <= i <= |vs|
      invariant forall j | 0 <= j < i :: NestedSenderInRange(vs[j])
      invariant forall j | 0 <= j < i :: SenderInRange(vs[j])
      invariant writer.out == old(writer.out) + Flatten(SendersField(4, vs[..i]))
      invariant writer.stack == old(writer.stack)
    {
      var v := vs[i];
      :- EncodeNestedTicketSenderParams(4, v, writer);
      SendersSnoc(4, vs[..i], v);
      Extend(old(writer.out), SendersField(4, vs[..i]), [Record(4, LenBody(Flatten(SenderRecords(v))))]);
      assert vs[..i] + [v] == vs[..i + 1];
      i := i + 1;
    }
    assert vs[..i] == vs;
    return Pass;
  }

  lemma NoSenders()
    ensures SendersField(4, []) == []
  {
  }

  method EncodePayment(message: Payment, writer: BinaryWriter) returns (r: Outcome<Error>)
    modifies writer
    ensures r.Pass? <==> InRange(PaymentM(message))
    ensures r.Pass? ==> writer.out == old(writer.out) + Flatten(RecordsOf(PaymentM(message)))
    ensures r.Pass? ==> writer.stack == old(writer.stack)
  {
    hide Flatten;
    ghost var out := writer.out;
    if message.ticketParams.Some? {
      :- EncodeNestedTicketParams(1, message.ticketParams.value, writer);
    } else {
      NothingWritten(writer.out);
    }
    ghost var rs := ParamsField(1, message.ticketParams);
    :- EncodeBytes(2, message.sender, writer);
    Extend(out, rs, BytesRecord(2, message.sender));
    rs := rs + BytesRecord(2, message.sender);
    if message.expirationParams.Some? {
      :- EncodeNestedTicketExpirationParams(3, message.expirationParams.value, writer);
    } else {
      NothingWritten(writer.out);
    }
    Extend(out, rs, ExpirationField(3, message.expirationParams));
    rs := rs + ExpirationField(3, message.expirationParams);
    :- EncodeAllTicketSenderParams(message.ticketSenderParams, writer);
    Extend(out, rs, SendersField(4, message.ticketSenderParams));
    rs := rs + SendersField(4, message.ticketSenderParams);
    if message.expectedPrice.Some? {
      :- EncodeNestedPriceInfo(5, message.expectedPrice.value, writer);
    } else {
      NothingWritten(writer.out);
    }
    Extend(out, rs, PriceField(5, message.expectedPrice));
    rs := rs + PriceField(5, message.expectedPrice);
    return Pass;
  }

  // ----------------------------------------------------------------------------------------------
  // The round trip, on the methods
  // ----------------------------------------------------------------------------------------------

  /** `Payment.decode(Payment.encode(message).finish())`. */
  method ReencodePayment(message: Payment) returns (r: Result<Payment, Error>)
    ensures r == if InRange(PaymentM(message)) then Ok(message) else Err(ValueTooLarge)
  {
    hide DecodeFields, Flatten;
    var writer := new BinaryWriter();
    var encoded := EncodePayment(message, writer);
    if encoded.Thrown? {
      return Err(ValueTooLarge);
    }
    RoundTrip(PaymentM(message));
    assert writer.out == Encode(PaymentM(message));
    var reader := new BinaryReader(writer.out);
    r := DecodePayment(reader, None);
  }

  /** The same for ticket params, which are also decoded on their own. */
  method ReencodeTicketParams(message: TicketParams) returns (r: Result<TicketParams, Error>)
    ensures r == if ParamsInRange(message) then Ok(message) else Err(ValueTooLarge)
  {
    hide DecodeFields, Flatten;
    var writer := new BinaryWriter();
    var encoded := EncodeTicketParams(message, writer);
    if encoded.Thrown? {
      return Err(ValueTooLarge);
    }
    RoundTrip(ParamsM(message));
    assert writer.out == Encode(ParamsM(message));
    var reader := new BinaryReader(writer.out);
    r := DecodeTicketParams(reader, None);
  }
}
