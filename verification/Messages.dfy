/**
 The five messages of `livepeer.payments.v1`: what their generated decoders compute on a buffer, the records
 their encoders write, and how the two fit. The five decoders share one shape, so `DecodeFields` treats the
 message being filled as a value of the sum type `Message`.
 */
module Messages {
  import opened Wrappers
  import opened Wire

  datatype PriceInfo = PriceInfo(pricePerUnit: int, pixelsPerUnit: int, capability: int, constraint: Bytes)

  datatype TicketExpirationParams = TicketExpirationParams(creationRound: int, creationRoundBlockHash: Bytes)

  datatype TicketSenderParams = TicketSenderParams(senderNonce: int, sig: Bytes)

  datatype TicketParams = TicketParams(
    recipient: Bytes,
    faceValue: Bytes,
    winProb: Bytes,
    recipientRandHash: Bytes,
    seed: Bytes,
    expirationBlock: Bytes,
    expirationParams: Option<TicketExpirationParams>)

  datatype Payment = Payment(
    ticketParams: Option<TicketParams>,
    sender: Bytes,
    expirationParams: Option<TicketExpirationParams>,
    ticketSenderParams: seq<TicketSenderParams>,
    expectedPrice: Option<PriceInfo>)

  const BASE_PRICE_INFO := PriceInfo(0, 0, 0, [])
  const BASE_EXPIRATION_PARAMS := TicketExpirationParams(0, [])
  const BASE_SENDER_PARAMS := TicketSenderParams(0, [])
  const BASE_TICKET_PARAMS := TicketParams([], [], [], [], [], [], None)
  const BASE_PAYMENT := Payment(None, [], None, [], None)

  datatype Message =
    | PriceM(price: PriceInfo)
    | ExpirationM(expiration: TicketExpirationParams)
    | SenderM(sender: TicketSenderParams)
    | ParamsM(params: TicketParams)
    | PaymentM(payment: Payment)

  predicate SameKind(a: Message, b: Message) {
    && (a.PriceM? <==> b.PriceM?)
    && (a.ExpirationM? <==> b.ExpirationM?)
    && (a.SenderM? <==> b.SenderM?)
    && (a.ParamsM? <==> b.ParamsM?)
    && (a.PaymentM? <==> b.PaymentM?)
  }

  function Base(m: Message): (b: Message)
    ensures SameKind(b, m)
  {
    match m
    case PriceM(_) => PriceM(BASE_PRICE_INFO)
    case ExpirationM(_) => ExpirationM(BASE_EXPIRATION_PARAMS)
    case SenderM(_) => SenderM(BASE_SENDER_PARAMS)
    case ParamsM(_) => ParamsM(BASE_TICKET_PARAMS)
    case PaymentM(_) => PaymentM(BASE_PAYMENT)
  }

  // ----------------------------------------------------------------------------------------------
  // Decoding
  // ----------------------------------------------------------------------------------------------

  /** The tags a decoder has a case for: a field number it knows with the wire type it expects. */
  predicate Knows(m: Message, tag: nat) {
    match m
    case PriceM(_) => tag == 8 || tag == 16 || tag == 24 || tag == 34
    case ExpirationM(_) => tag == 8 || tag == 18
    case SenderM(_) => tag == 8 || tag == 18
    case ParamsM(_) => tag == 10 || tag == 18 || tag == 26 || tag == 34 || tag == 42 || tag == 50 || tag == 58
    case PaymentM(_) => tag == 10 || tag == 18 || tag == 26 || tag == 34 || tag == 42
  }

  /** Reads the body of a known field into the message; a repeated field appends, any other overwrites. */
  function ReadField(m: Message, tag: nat, buf: Bytes, pos: nat): (r: Parsed<Message>)
    requires Knows(m, tag) && pos <= |buf|
    ensures r.Done? ==> pos < r.pos <= |buf| && SameKind(r.value, m)
    decreases |buf| - pos, 1
  {
    match m
    case PriceM(x) =>
      if tag == 8 then
        var (v, next) :- ReadInt64(buf, pos);
        Done(PriceM(x.(pricePerUnit := v)), next)
      else if tag == 16 then
        var (v, next) :- ReadInt64(buf, pos);
        Done(PriceM(x.(pixelsPerUnit := v)), next)
      else if tag == 24 then
        var (v, next) :- ReadUint32(buf, pos);
        Done(PriceM(x.(capability := v)), next)
      else
        var (v, next) :- ReadBytes(buf, pos);
        Done(PriceM(x.(constraint := v)), next)
    case ExpirationM(x) =>
      if tag == 8 then
        var (v, next) :- ReadInt64(buf, pos);
        Done(ExpirationM(x.(creationRound := v)), next)
      else
        var (v, next) :- ReadBytes(buf, pos);
        Done(ExpirationM(x.(creationRoundBlockHash := v)), next)
    case SenderM(x) =>
      if tag == 8 then
        var (v, next) :- ReadUint32(buf, pos);
        Done(SenderM(x.(senderNonce := v)), next)
      else
        var (v, next) :- ReadBytes(buf, pos);
        Done(SenderM(x.(sig := v)), next)
    case ParamsM(x) =>
      if tag == 58 then
        var (v, next) :- ReadNested(ExpirationM(BASE_EXPIRATION_PARAMS), buf, pos);
        Done(ParamsM(x.(expirationParams := Some(v.expiration))), next)
      else
        var (v, next) :- ReadBytes(buf, pos);
        Done(ParamsM(
               if tag == 10 then x.(recipient := v)
               else if tag == 18 then x.(faceValue := v)
               else if tag == 26 then x.(winProb := v)
               else if tag == 34 then x.(recipientRandHash := v)
               else if tag == 42 then x.(seed := v)
               else x.(expirationBlock := v)), next)
    case PaymentM(x) =>
      if tag == 10 then
        var (v, next) :- ReadNested(ParamsM(BASE_TICKET_PARAMS), buf, pos);
        Done(PaymentM(x.(ticketParams := Some(v.params))), next)
      else if tag == 18 then
        var (v, next) :- ReadBytes(buf, pos);
        Done(PaymentM(x.(sender := v)), next)
      else if tag == 26 then
        var (v, next) :- ReadNested(ExpirationM(BASE_EXPIRATION_PARAMS), buf, pos);
        Done(PaymentM(x.(expirationParams := Some(v.expiration))), next)
      else if tag == 34 then
        var (v, next) :- ReadNested(SenderM(BASE_SENDER_PARAMS), buf, pos);
        Done(PaymentM(x.(ticketSenderParams := x.ticketSenderParams + [v.sender])), next)
      else
        var (v, next) :- ReadNested(PriceM(BASE_PRICE_INFO), buf, pos);
        Done(PaymentM(x.(expectedPrice := Some(v.price))), next)
  }

  /** A length prefix, then a submessage decoded up to where that length ends. */
  function ReadNested(base: Message, buf: Bytes, pos: nat): (r: Parsed<Message>)
    requires pos <= |buf|
    ensures r.Done? ==> pos < r.pos <= |buf| && SameKind(r.value, base)
    decreases |buf| - pos, 0
  {
    match ReadUint32(buf, pos)
    case Fail(e) => Fail(e)
    case Done(count, start) => DecodeFields(base, buf, start, start + count)
  }

  /** The decode loop of every message, from the message `m` filled so far. */
  function DecodeFields(m: Message, buf: Bytes, pos: nat, end: nat): (r: Parsed<Message>)
    requires pos <= |buf|
    ensures r.Done? ==> pos <= r.pos <= |buf| && SameKind(r.value, m)
    decreases |buf| - pos, 2
  {
    if pos >= end then Done(m, pos)
    else
      match ReadUint32(buf, pos)
      case Fail(e) => Fail(e)
      case Done(tag, next) =>
        if Knows(m, tag) then
          match ReadField(m, tag, buf, next)
          case Fail(e) => Fail(e)
          case Done(m', after) => DecodeFields(m', buf, after, end)
        else if tag % 8 == 4 || tag == 0 then Done(m, next)
        else
          match Skip(buf, next, tag % 8)
          case Err(e) => Fail(e)
          case Ok(after) => DecodeFields(m, buf, after, end)
  }

  /** One turn of the decode loop. */
  lemma DecodeTurn(m: Message, buf: Bytes, pos: nat, end: nat)
    requires pos <= |buf|
    ensures var all, t := DecodeFields(m, buf, pos, end), ReadUint32(buf, pos);
      if pos >= end then all == Done(m, pos)
      else if t.Fail? then all == Fail(t.error)
      else if Knows(m, t.value) then
        var f := ReadField(m, t.value, buf, t.pos);
        all == if f.Fail? then Fail(f.error) else DecodeFields(f.value, buf, f.pos, end)
      else if t.value % 8 == 4 || t.value == 0 then all == Done(m, t.pos)
      else
        var s := Skip(buf, t.pos, t.value % 8);
        all == if s.Err? then Fail(s.error) else DecodeFields(m, buf, s.value, end)
  {
  }

  lemma NestedTurn(base: Message, buf: Bytes, pos: nat)
    requires pos <= |buf|
    ensures var n, t := ReadNested(base, buf, pos), ReadUint32(buf, pos);
      n == if t.Fail? then Fail(t.error) else DecodeFields(base, buf, t.pos, t.pos + t.value)
  {
  }

  /** Decoding a whole buffer. */
  function Decode(base: Message, buf: Bytes): Parsed<Message> {
    DecodeFields(base, buf, 0, |buf|)
  }

  // ----------------------------------------------------------------------------------------------
  // The records an encoder writes
  // ----------------------------------------------------------------------------------------------

  predicate IsInt64(v: int) {
    -TWO_TO_THE_63 <= v < TWO_TO_THE_63
  }

  predicate IsUint32(v: int) {
    0 <= v < TWO_TO_THE_32
  }

  /** Exactly the values the encoder does not throw on. */
  predicate InRange(m: Message) {
    match m
    case PriceM(x) => PriceInRange(x)
    case ExpirationM(x) => ExpirationInRange(x)
    case SenderM(x) => SenderInRange(x)
    case ParamsM(x) => ParamsInRange(x)
    case PaymentM(x) =>
      && (x.ticketParams.Some? ==>
            ParamsInRange(x.ticketParams.value) && IsUint32(|Flatten(ParamsRecords(x.ticketParams.value))|))
      && IsUint32(|x.sender|)
      && (x.expirationParams.Some? ==> NestedExpirationInRange(x.expirationParams.value))
      && (forall i | 0 <= i < |x.ticketSenderParams| :: NestedSenderInRange(x.ticketSenderParams[i]))
      && (x.expectedPrice.Some? ==> NestedPriceInRange(x.expectedPrice.value))
  }

  predicate PriceInRange(x: PriceInfo) {
    IsInt64(x.pricePerUnit) && IsInt64(x.pixelsPerUnit) && IsUint32(x.capability) && IsUint32(|x.constraint|)
  }

  predicate ExpirationInRange(x: TicketExpirationParams) {
    IsInt64(x.creationRound) && IsUint32(|x.creationRoundBlockHash|)
  }

  predicate SenderInRange(x: TicketSenderParams) {
    IsUint32(x.senderNonce) && IsUint32(|x.sig|)
  }

  predicate ParamsInRange(x: TicketParams) {
    && IsUint32(|x.recipient|) && IsUint32(|x.faceValue|) && IsUint32(|x.winProb|)
    && IsUint32(|x.recipientRandHash|) && IsUint32(|x.seed|) && IsUint32(|x.expirationBlock|)
    && (x.expirationParams.Some? ==> NestedExpirationInRange(x.expirationParams.value))
  }

  predicate NestedPriceInRange(x: PriceInfo) {
    PriceInRange(x) && IsUint32(|Flatten(PriceRecords(x))|)
  }

  predicate NestedExpirationInRange(x: TicketExpirationParams) {
    ExpirationInRange(x) && IsUint32(|Flatten(ExpirationRecords(x))|)
  }

  predicate NestedSenderInRange(x: TicketSenderParams) {
    SenderInRange(x) && IsUint32(|Flatten(SenderRecords(x))|)
  }

  function IntRecord(no: nat, v: int): seq<Record>
    requires IsInt64(v)
  {
    if v == 0 then [] else [Record(no, VarintBody(Varint(FromInt64(v))))]
  }

  function BytesRecord(no: nat, v: Bytes): seq<Record> {
    if v == [] then [] else [Record(no, LenBody(v))]
  }

  function PriceRecords(x: PriceInfo): seq<Record>
    requires PriceInRange(x)
  {
    IntRecord(1, x.pricePerUnit) + IntRecord(2, x.pixelsPerUnit) + IntRecord(3, x.capability)
    + BytesRecord(4, x.constraint)
  }

  function ExpirationRecords(x: TicketExpirationParams): seq<Record>
    requires ExpirationInRange(x)
  {
    IntRecord(1, x.creationRound) + BytesRecord(2, x.creationRoundBlockHash)
  }

  function SenderRecords(x: TicketSenderParams): seq<Record>
    requires SenderInRange(x)
  {
    IntRecord(1, x.senderNonce) + BytesRecord(2, x.sig)
  }

  /** A submessage field: absent writes nothing, present writes a length-delimited record even when empty. */
  function ExpirationField(no: nat, x: Option<TicketExpirationParams>): seq<Record>
    requires x.Some? ==> ExpirationInRange(x.value)
  {
    if x.None? then [] else [Record(no, LenBody(Flatten(ExpirationRecords(x.value))))]
  }

  function ParamsRecords(x: TicketParams): seq<Record>
    requires ParamsInRange(x)
  {
    BytesRecord(1, x.recipient) + BytesRecord(2, x.faceValue) + BytesRecord(3, x.winProb)
    + BytesRecord(4, x.recipientRandHash) + BytesRecord(5, x.seed) + BytesRecord(6, x.expirationBlock)
    + ExpirationField(7, x.expirationParams)
  }

  function ParamsField(no: nat, x: Option<TicketParams>): seq<Record>
    requires x.Some? ==> ParamsInRange(x.value)
  {
    if x.None? then [] else [Record(no, LenBody(Flatten(ParamsRecords(x.value))))]
  }

  function SendersField(no: nat, xs: seq<TicketSenderParams>): seq<Record>
    requires forall i | 0 <= i < |xs| :: SenderInRange(xs[i])
  {
    if xs == [] then []
    else [Record(no, LenBody(Flatten(SenderRecords(xs[0]))))] + SendersField(no, xs[1..])
  }

  function PriceField(no: nat, x: Option<PriceInfo>): seq<Record>
    requires x.Some? ==> PriceInRange(x.value)
  {
    if x.None? then [] else [Record(no, LenBody(Flatten(PriceRecords(x.value))))]
  }

  function RecordsOf(m: Message): seq<Record>
    requires InRange(m)
  {
    match m
    case PriceM(x) => PriceRecords(x)
    case ExpirationM(x) => ExpirationRecords(x)
    case SenderM(x) => SenderRecords(x)
    case ParamsM(x) => ParamsRecords(x)
    case PaymentM(x) =>
      ParamsField(1, x.ticketParams) + BytesRecord(2, x.sender) + ExpirationField(3, x.expirationParams)
      + SendersField(4, x.ticketSenderParams) + PriceField(5, x.expectedPrice)
  }

  /** The bytes an encoder writes for a message it does not throw on. */
  function Encode(m: Message): Bytes
    requires InRange(m)
  {
    Flatten(RecordsOf(m))
  }

  // ----------------------------------------------------------------------------------------------
  // The layout of the messages
  // ----------------------------------------------------------------------------------------------

  /** Records stand in the order of their field numbers. */
  ghost predicate InFieldOrder(rs: seq<Record>) {
    forall i, j | 0 <= i < j < |rs| :: rs[i].no <= rs[j].no
  }

  /** The record of an integer field. */
  function Int(no: nat, v: int): Record
    requires IsInt64(v)
  {
    Record(no, VarintBody(Varint(FromInt64(v))))
  }

  function Len(no: nat, v: Bytes): Record {
    Record(no, LenBody(v))
  }

  lemma PriceLayout(x: PriceInfo)
    requires PriceInRange(x)
    ensures InFieldOrder(PriceRecords(x))
    ensures forall r :: r in PriceRecords(x) <==>
      || (x.pricePerUnit != 0 && r == Int(1, x.pricePerUnit))
      || (x.pixelsPerUnit != 0 && r == Int(2, x.pixelsPerUnit))
      || (x.capability != 0 && r == Int(3, x.capability))
      || (x.constraint != [] && r == Len(4, x.constraint))
  {
    hide Varint, FromInt64;
  }

  lemma ExpirationLayout(x: TicketExpirationParams)
    requires ExpirationInRange(x)
    ensures InFieldOrder(ExpirationRecords(x))
    ensures forall r :: r in ExpirationRecords(x) <==>
      || (x.creationRound != 0 && r == Int(1, x.creationRound))
      || (x.creationRoundBlockHash != [] && r == Len(2, x.creationRoundBlockHash))
  {
    hide Varint, FromInt64;
  }

  lemma SenderLayout(x: TicketSenderParams)
    requires SenderInRange(x)
    ensures InFieldOrder(SenderRecords(x))
    ensures forall r :: r in SenderRecords(x) <==>
      || (x.senderNonce != 0 && r == Int(1, x.senderNonce))
      || (x.sig != [] && r == Len(2, x.sig))
  {
    hide Varint, FromInt64;
  }

  lemma ParamsLayout(x: TicketParams)
    requires ParamsInRange(x)
    ensures InFieldOrder(ParamsRecords(x))
    ensures forall r :: r in ParamsRecords(x) <==>
      || (x.recipient != [] && r == Len(1, x.recipient))
      || (x.faceValue != [] && r == Len(2, x.faceValue))
      || (x.winProb != [] && r == Len(3, x.winProb))
      || (x.recipientRandHash != [] && r == Len(4, x.recipientRandHash))
      || (x.seed != [] && r == Len(5, x.seed))
      || (x.expirationBlock != [] && r == Len(6, x.expirationBlock))
      || (x.expirationParams.Some? && r == Len(7, Flatten(ExpirationRecords(x.expirationParams.value))))
  {
    hide Flatten, ExpirationRecords, InFieldOrder;
    var a, b, c := BytesRecord(1, x.recipient), BytesRecord(2, x.faceValue), BytesRecord(3, x.winProb);
    var d, e := BytesRecord(4, x.recipientRandHash), BytesRecord(5, x.seed);
    var f, g := BytesRecord(6, x.expirationBlock), ExpirationField(7, x.expirationParams);
    assert ParamsRecords(x) == a + b + c + d + e + f + g;
    assert forall r ::
        r in g <==> x.expirationParams.Some? && r == Len(7, Flatten(ExpirationRecords(x.expirationParams.value)));
    BytesMember(1, x.recipient);
    BytesMember(2, x.faceValue);
    BytesMember(3, x.winProb);
    BytesMember(4, x.recipientRandHash);
    BytesMember(5, x.seed);
    BytesMember(6, x.expirationBlock);
    hide BytesRecord, ExpirationField, ParamsRecords, ParamsInRange;
    OneNumber(a, 1);
    OrderAppend(a, b, 2);
    OrderAppend(a + b, c, 3);
    OrderAppend(a + b + c, d, 4);
    OrderAppend(a + b + c + d, e, 5);
    OrderAppend(a + b + c + d + e, f, 6);
    OrderAppend(a + b + c + d + e + f, g, 7);
  }

  lemma BytesMember(no: nat, v: Bytes)
    ensures forall r :: r in BytesRecord(no, v) <==> v != [] && r == Len(no, v)
  {
  }

  lemma {:induction false} SendersLayout(xs: seq<TicketSenderParams>)
    requires forall i | 0 <= i < |xs| :: SenderInRange(xs[i])
    ensures |SendersField(4, xs)| == |xs|
    ensures forall i | 0 <= i < |xs| :: SendersField(4, xs)[i] == Len(4, Flatten(SenderRecords(xs[i])))
  {
    hide Flatten, SenderRecords, SenderInRange;
    if xs != [] {
      SendersLayout(xs[1..]);
    }
  }

  lemma PaymentLayout(x: Payment)
    requires InRange(PaymentM(x))
    ensures forall i | 0 <= i < |x.ticketSenderParams| :: SenderInRange(x.ticketSenderParams[i])
    ensures InFieldOrder(RecordsOf(PaymentM(x)))
    ensures forall r :: r in RecordsOf(PaymentM(x)) <==>
      || (x.ticketParams.Some? && r == Len(1, Flatten(ParamsRecords(x.ticketParams.value))))
      || (x.sender != [] && r == Len(2, x.sender))
      || (x.expirationParams.Some? && r == Len(3, Flatten(ExpirationRecords(x.expirationParams.value))))
      || (exists i | 0 <= i < |x.ticketSenderParams| ::
            r == Len(4, Flatten(SenderRecords(x.ticketSenderParams[i]))))
      || (x.expectedPrice.Some? && r == Len(5, Flatten(PriceRecords(x.expectedPrice.value))))
  {
    hide Flatten, SenderRecords, ParamsRecords, ExpirationRecords, PriceRecords, InFieldOrder;
    assert forall i | 0 <= i < |x.ticketSenderParams| :: NestedSenderInRange(x.ticketSenderParams[i]);
    var a, b, c := ParamsField(1, x.ticketParams), BytesRecord(2, x.sender), ExpirationField(3, x.expirationParams);
    var d, e := SendersField(4, x.ticketSenderParams), PriceField(5, x.expectedPrice);
    assert RecordsOf(PaymentM(x)) == a + b + c + d + e;
    assert forall r :: r in a <==> x.ticketParams.Some? && r == Len(1, Flatten(ParamsRecords(x.ticketParams.value)));
    assert forall r :: r in b <==> x.sender != [] && r == Len(2, x.sender);
    assert forall r ::
        r in c <==> x.expirationParams.Some? && r == Len(3, Flatten(ExpirationRecords(x.expirationParams.value)));
    SendersMembers(x.ticketSenderParams);
    assert forall r :: r in e <==> x.expectedPrice.Some? && r == Len(5, Flatten(PriceRecords(x.expectedPrice.value)));
    hide ParamsField, BytesRecord, ExpirationField, SendersField, PriceField, RecordsOf, InRange;
    OneNumber(a, 1);
    OrderAppend(a, b, 2);
    OrderAppend(a + b, c, 3);
    OrderAppend(a + b + c, d, 4);
    OrderAppend(a + b + c + d, e, 5);
  }

  lemma SendersMembers(xs: seq<TicketSenderParams>)
    requires forall i | 0 <= i < |xs| :: SenderInRange(xs[i])
    ensures forall r ::
      r in SendersField(4, xs) <==> exists i | 0 <= i < |xs| :: r == Len(4, Flatten(SenderRecords(xs[i])))
  {
    SendersLayout(xs);
    hide Flatten, SenderRecords, SenderInRange, SendersField;
    var rs := SendersField(4, xs);
    forall i | 0 <= i < |xs|
      ensures Len(4, Flatten(SenderRecords(xs[i]))) in rs
    {
      assert rs[i] in rs;
    }
  }

  lemma OneNumber(rs: seq<Record>, no: nat)
    requires forall r | r in rs :: r.no == no
    ensures InFieldOrder(rs)
  {
    assert forall i | 0 <= i < |rs| :: rs[i] in rs;
  }

  lemma OrderAppend(a: seq<Record>, b: seq<Record>, no: nat)
    requires InFieldOrder(a) && (forall r | r in a :: r.no < no) && forall r | r in b :: r.no == no
    ensures InFieldOrder(a + b)
  {
    forall i, j | 0 <= i < j < |a + b|
      ensures (a + b)[i].no <= (a + b)[j].no
    {
      assert i < |a| ==> (a + b)[i] == a[i] && a[i] in a;
      assert i >= |a| ==> (a + b)[i] == b[i - |a|] && b[i - |a|] in b;
      assert j < |a| ==> (a + b)[j] == a[j] && a[j] in a;
      assert j >= |a| ==> (a + b)[j] == b[j - |a|] && b[j - |a|] in b;
    }
  }

  /** The ranges in numbers. */
  lemma RangesExactly(p: PriceInfo, e: TicketExpirationParams, s: TicketSenderParams)
    ensures PriceInRange(p) <==>
      && -0x8000_0000_0000_0000 <= p.pricePerUnit <= 0x7FFF_FFFF_FFFF_FFFF
      && -0x8000_0000_0000_0000 <= p.pixelsPerUnit <= 0x7FFF_FFFF_FFFF_FFFF
      && 0 <= p.capability <= 0xFFFF_FFFF && |p.constraint| <= 0xFFFF_FFFF
    ensures ExpirationInRange(e) <==>
      && -0x8000_0000_0000_0000 <= e.creationRound <= 0x7FFF_FFFF_FFFF_FFFF && |e.creationRoundBlockHash| <= 0xFFFF_FFFF
    ensures SenderInRange(s) <==> 0 <= s.senderNonce <= 0xFFFF_FFFF && |s.sig| <= 0xFFFF_FFFF
  {
  }

  // ----------------------------------------------------------------------------------------------
  // Locality of decoding
  // ----------------------------------------------------------------------------------------------

  lemma {:induction false} ReadFieldLocal(m: Message, tag: nat, part: Bytes, pos: nat, buf: Bytes, off: nat)
    requires Knows(m, tag) && At(buf, off, part) && pos <= |part| && ReadField(m, tag, part, pos).Done?
    ensures var r := ReadField(m, tag, part, pos); ReadField(m, tag, buf, off + pos) == Done(r.value, off + r.pos)
    decreases |part| - pos, 1
  {
    hide ReadUint32, ReadBytes, ReadVarint, ReadNested;
    match m
    case PriceM(_) =>
      if tag == 34 {
        ReadBytesLocal(part, pos, buf, off);
      } else if tag == 24 {
        ReadUint32Local(part, pos, buf, off);
      } else {
        ReadVarintLocal(part, pos, buf, off, pos + MAX_VARINT_BYTES);
      }
    case ExpirationM(_) =>
      if tag == 18 {
        ReadBytesLocal(part, pos, buf, off);
      } else {
        ReadVarintLocal(part, pos, buf, off, pos + MAX_VARINT_BYTES);
      }
    case SenderM(_) =>
      if tag == 18 {
        ReadBytesLocal(part, pos, buf, off);
      } else {
        ReadUint32Local(part, pos, buf, off);
      }
    case ParamsM(_) =>
      if tag == 58 {
        ReadNestedLocal(ExpirationM(BASE_EXPIRATION_PARAMS), part, pos, buf, off);
      } else {
        ReadBytesLocal(part, pos, buf, off);
      }
    case PaymentM(_) =>
      if tag == 18 {
        ReadBytesLocal(part, pos, buf, off);
      } else {
        var base := if tag == 10 then ParamsM(BASE_TICKET_PARAMS)
                    else if tag == 26 then ExpirationM(BASE_EXPIRATION_PARAMS)
                    else if tag == 34 then SenderM(BASE_SENDER_PARAMS)
                    else PriceM(BASE_PRICE_INFO);
        ReadNestedLocal(base, part, pos, buf, off);
      }
  }

  lemma {:induction false} ReadNestedLocal(base: Message, part: Bytes, pos: nat, buf: Bytes, off: nat)
    requires At(buf, off, part) && pos <= |part| && ReadNested(base, part, pos).Done?
    ensures var r := ReadNested(base, part, pos); ReadNested(base, buf, off + pos) == Done(r.value, off + r.pos)
    decreases |part| - pos, 0
  {
    hide ReadUint32, DecodeFields;
    ReadUint32Local(part, pos, buf, off);
    var Done(count, start) := ReadUint32(part, pos);
    DecodeFieldsLocal(base, part, start, start + count, buf, off);
  }

  lemma {:induction false} DecodeFieldsLocal(m: Message, part: Bytes, pos: nat, end: nat, buf: Bytes, off: nat)
    requires At(buf, off, part) && pos <= |part| && DecodeFields(m, part, pos, end).Done?
    ensures var r := DecodeFields(m, part, pos, end);
      DecodeFields(m, buf, off + pos, off + end) == Done(r.value, off + r.pos)
    decreases |part| - pos, 2
  {
    hide ReadUint32, ReadField, Skip;
    if pos < end {
      ReadUint32Local(part, pos, buf, off);
      var Done(tag, next) := ReadUint32(part, pos);
      if Knows(m, tag) {
        ReadFieldLocal(m, tag, part, next, buf, off);
        var Done(m', after) := ReadField(m, tag, part, next);
        DecodeFieldsLocal(m', part, after, end, buf, off);
      } else if tag % 8 != 4 && tag != 0 {
        SkipLocal(part, next, buf, off, tag % 8);
        DecodeFieldsLocal(m, part, Skip(part, next, tag % 8).value, end, buf, off);
      }
    }
  }

  // ----------------------------------------------------------------------------------------------
  // Decoding a list of records
  // ----------------------------------------------------------------------------------------------

  /** What one record, read on its own, does to the message; None if it does not read cleanly. */
  function Apply(m: Message, r: Record): (o: Option<Message>)
    ensures o.Some? ==> SameKind(o.value, m)
  {
    if !Knows(m, Tag(r)) then Some(m)
    else
      match ReadField(m, Tag(r), BodyBytes(r), 0)
      case Fail(_) => None
      case Done(m', next) => if next == |BodyBytes(r)| then Some(m') else None
  }

  function Fold(m: Message, rs: seq<Record>): (o: Option<Message>)
    ensures o.Some? ==> SameKind(o.value, m)
    decreases rs
  {
    if rs == [] then Some(m)
    else
      match Apply(m, rs[0])
      case None => None
      case Some(m') => Fold(m', rs[1..])
  }

  /** The records the decoder has a case for. */
  function Known(m: Message, rs: seq<Record>): seq<Record> {
    if rs == [] then []
    else (if Knows(m, Tag(rs[0])) then [rs[0]] else []) + Known(m, rs[1..])
  }

  lemma {:induction false} KnownOfKind(m: Message, n: Message, rs: seq<Record>)
    requires SameKind(m, n)
    ensures Known(m, rs) == Known(n, rs)
  {
    if rs != [] {
      KnownOfKind(m, n, rs[1..]);
    }
  }

  lemma {:induction false} FoldIgnoresUnknown(m: Message, rs: seq<Record>)
    ensures Fold(m, rs) == Fold(m, Known(m, rs))
    decreases rs
  {
    hide Apply;
    if rs != [] {
      if Knows(m, Tag(rs[0])) {
        assert Known(m, rs)[0] == rs[0] && Known(m, rs)[1..] == Known(m, rs[1..]);
        if Apply(m, rs[0]).Some? {
          var m' := Apply(m, rs[0]).value;
          FoldIgnoresUnknown(m', rs[1..]);
          KnownOfKind(m, m', rs[1..]);
        }
      } else {
        UnknownApplies(m, rs[0]);
        FoldIgnoresUnknown(m, rs[1..]);
        assert Known(m, rs) == Known(m, rs[1..]);
      }
    }
  }

  lemma UnknownApplies(m: Message, r: Record)
    requires !Knows(m, Tag(r))
    ensures Apply(m, r) == Some(m)
  {
  }

  lemma {:induction false} FoldAppend(m: Message, a: seq<Record>, b: seq<Record>, m': Message)
    requires Fold(m, a) == Some(m')
    ensures Fold(m, a + b) == Fold(m', b)
    decreases a
  {
    hide Apply;
    if a == [] {
      assert a + b == b;
    } else {
      assert (a + b)[0] == a[0] && (a + b)[1..] == a[1..] + b;
      FoldAppend(Apply(m, a[0]).value, a[1..], b, m');
    }
  }

  /** One turn of the loop over a record that the decoder has a case for. */
  lemma KnownTurn(m: Message, r: Record, buf: Bytes, pos: nat, end: nat)
    requires WellFormed(r) && At(buf, pos, RecordBytes(r)) && pos < end
    requires Knows(m, Tag(r)) && Apply(m, r).Some?
    ensures DecodeFields(m, buf, pos, end) == DecodeFields(Apply(m, r).value, buf, pos + |RecordBytes(r)|, end)
  {
    hide ReadField, ReadUint32, DecodeFields, RecordBytes, Knows;
    TagReads(buf, pos, r);
    RecordSplits(r);
    var next := pos + |Varint(Tag(r))|;
    ReadFieldLocal(m, Tag(r), BodyBytes(r), 0, buf, next);
    DecodeTurn(m, buf, pos, end);
  }

  /** One turn of the loop over any other record. */
  lemma UnknownTurn(m: Message, r: Record, buf: Bytes, pos: nat, end: nat)
    requires WellFormed(r) && At(buf, pos, RecordBytes(r)) && pos < end && !Knows(m, Tag(r))
    ensures DecodeFields(m, buf, pos, end) == DecodeFields(m, buf, pos + |RecordBytes(r)|, end)
  {
    hide Skip, ReadUint32, DecodeFields, RecordBytes, Knows;
    TagReads(buf, pos, r);
    RecordSplits(r);
    SkipsRecord(buf, pos + |Varint(Tag(r))|, r);
    DecodeTurn(m, buf, pos, end);
  }

  lemma LastTurn(m: Message, buf: Bytes, pos: nat)
    requires pos <= |buf|
    ensures DecodeFields(m, buf, pos, pos) == Done(m, pos)
  {
  }

  /** The decode loop over well-formed records that read cleanly is the fold over them. */
  lemma {:induction false} DecodeFolds(m: Message, rs: seq<Record>, buf: Bytes, pos: nat)
    requires forall i | 0 <= i < |rs| :: WellFormed(rs[i])
    requires At(buf, pos, Flatten(rs)) && Fold(m, rs).Some?
    ensures DecodeFields(m, buf, pos, pos + |Flatten(rs)|) == Done(Fold(m, rs).value, pos + |Flatten(rs)|)
    decreases rs
  {
    hide DecodeFields, RecordBytes, Knows, Apply, WellFormed;
    if rs == [] {
      LastTurn(m, buf, pos);
    } else {
      var r, rest, end := rs[0], rs[1..], pos + |Flatten(rs)|;
      AtParts(buf, pos, RecordBytes(r), Flatten(rest));
      if Knows(m, Tag(r)) {
        KnownTurn(m, r, buf, pos, end);
      } else {
        UnknownTurn(m, r, buf, pos, end);
        UnknownApplies(m, r);
      }
      DecodeFolds(Apply(m, r).value, rest, buf, pos + |RecordBytes(r)|);
    }
  }

  // ----------------------------------------------------------------------------------------------
  // Foreign records at any depth
  // ----------------------------------------------------------------------------------------------

  /** Field `no` of `m` holds submessages of the kind of `sub`. */
  predicate HoldsAt(m: Message, no: nat, sub: Message) {
    match m
    case PaymentM(_) =>
      || (no == 1 && sub.ParamsM?)
      || (no == 3 && sub.ExpirationM?)
      || (no == 4 && sub.SenderM?)
      || (no == 5 && sub.PriceM?)
    case ParamsM(_) => no == 7 && sub.ExpirationM?
    case _ => false
  }

  /** Storing a decoded submessage at field `no`: ticket sender params append, the others overwrite. */
  function Store(m: Message, no: nat, sub: Message): Message
    requires HoldsAt(m, no, sub)
  {
    match m
    case PaymentM(x) => PaymentM(
      match no
      case 1 => x.(ticketParams := Some(sub.params))
      case 3 => x.(expirationParams := Some(sub.expiration))
      case 4 => x.(ticketSenderParams := x.ticketSenderParams + [sub.sender])
      case _ => x.(expectedPrice := Some(sub.price)))
    case ParamsM(x) => ParamsM(x.(expirationParams := Some(sub.expiration)))
  }

  /** A record whose body decodes to a submessage stores it. */
  lemma NestedApplies(m: Message, no: nat, sub: Message, raw: Bytes)
    requires HoldsAt(m, no, sub) && Decode(Base(sub), raw) == Done(sub, |raw|) && IsUint32(|raw|)
    ensures Apply(m, Record(no, LenBody(raw))) == Some(Store(m, no, sub))
  {
    NestedReads(sub, raw);
    hide ReadNested, Varint, DecodeFields;
    var r := Record(no, LenBody(raw));
    assert BodyBytes(r) == Varint(|raw|) + raw;
    assert Tag(r) == no * 8 + 2;
  }

  function Depth(m: Message): nat {
    match m
    case PaymentM(_) => 2
    case ParamsM(_) => 1
    case _ => 0
  }

  /**
   `rs` is what the encoder writes for `m`, with any well-formed records of unknown tags spliced in at record
   boundaries, here and, recursively, inside every submessage.
   */
  ghost predicate Spliced(m: Message, rs: seq<Record>)
    requires InRange(m)
    decreases Depth(m), 1
  {
    && (forall i | 0 <= i < |rs| :: WellFormed(rs[i]))
    && |Known(m, rs)| == |RecordsOf(m)|
    && forall i | 0 <= i < |RecordsOf(m)| :: SplicedRecord(m, RecordsOf(m)[i], Known(m, rs)[i])
  }

  ghost predicate SplicedRecord(m: Message, written: Record, found: Record)
    decreases Depth(m), 0
  {
    || found == written
    || (found.no == written.no && exists sub: Message, inner: seq<Record> ::
          && HoldsAt(m, written.no, sub) && InRange(sub) && Spliced(sub, inner)
          && written.body == LenBody(Encode(sub)) && found.body == LenBody(Flatten(inner)))
  }

  // ----------------------------------------------------------------------------------------------
  // What the encoders write reads back
  // ----------------------------------------------------------------------------------------------

  ghost predicate AllKnown(m: Message, rs: seq<Record>) {
    forall i | 0 <= i < |rs| :: WellFormed(rs[i]) && Knows(m, Tag(rs[i]))
  }

  lemma {:induction false} KnownKeepsAll(m: Message, rs: seq<Record>)
    requires AllKnown(m, rs)
    ensures Known(m, rs) == rs
  {
    if rs != [] {
      assert rs == [rs[0]] + rs[1..];
      KnownKeepsAll(m, rs[1..]);
    }
  }

  lemma AppendKnown(m: Message, a: seq<Record>, b: seq<Record>)
    requires AllKnown(m, a) && AllKnown(m, b)
    ensures AllKnown(m, a + b)
  {
  }

  lemma IntRecordKnown(m: Message, no: nat, v: int)
    requires IsInt64(v) && 1 <= no <= MAX_FIELD_NUMBER && Knows(m, no * 8)
    ensures AllKnown(m, IntRecord(no, v))
  {
    VarintIsVarint(FromInt64(v));
  }

  lemma BytesRecordKnown(m: Message, no: nat, v: Bytes)
    requires IsUint32(|v|) && 1 <= no <= MAX_FIELD_NUMBER && Knows(m, no * 8 + 2)
    ensures AllKnown(m, BytesRecord(no, v))
  {
  }

  lemma {:induction false} SendersFieldKnown(m: Message, xs: seq<TicketSenderParams>)
    requires m.PaymentM?
    requires forall i | 0 <= i < |xs| :: SenderInRange(xs[i]) && IsUint32(|Flatten(SenderRecords(xs[i]))|)
    ensures AllKnown(m, SendersField(4, xs))
  {
    if xs != [] {
      SendersFieldKnown(m, xs[1..]);
    }
  }

  lemma ParamsRecordsKnown(m: Message, x: TicketParams)
    requires m.ParamsM? && ParamsInRange(x)
    ensures AllKnown(m, ParamsRecords(x))
  {
    BytesRecordKnown(m, 1, x.recipient);
    BytesRecordKnown(m, 2, x.faceValue);
    BytesRecordKnown(m, 3, x.winProb);
    BytesRecordKnown(m, 4, x.recipientRandHash);
    BytesRecordKnown(m, 5, x.seed);
    BytesRecordKnown(m, 6, x.expirationBlock);
    assert AllKnown(m, ExpirationField(7, x.expirationParams));
    hide AllKnown, BytesRecord, ExpirationField;
    var a, b := BytesRecord(1, x.recipient), BytesRecord(2, x.faceValue);
    var c, d := BytesRecord(3, x.winProb), BytesRecord(4, x.recipientRandHash);
    var e, f := BytesRecord(5, x.seed), BytesRecord(6, x.expirationBlock);
    AppendKnown(m, a, b);
    AppendKnown(m, a + b, c);
    AppendKnown(m, a + b + c, d);
    AppendKnown(m, a + b + c + d, e);
    AppendKnown(m, a + b + c + d + e, f);
    AppendKnown(m, a + b + c + d + e + f, ExpirationField(7, x.expirationParams));
  }

  lemma PaymentRecordsKnown(m: Message)
    requires m.PaymentM? && InRange(m)
    ensures AllKnown(m, RecordsOf(m))
  {
    var x := m.payment;
    assert AllKnown(m, ParamsField(1, x.ticketParams));
    BytesRecordKnown(m, 2, x.sender);
    assert AllKnown(m, ExpirationField(3, x.expirationParams));
    forall i | 0 <= i < |x.ticketSenderParams|
      ensures SenderInRange(x.ticketSenderParams[i])
      ensures IsUint32(|Flatten(SenderRecords(x.ticketSenderParams[i]))|)
    {
      assert NestedSenderInRange(x.ticketSenderParams[i]);
    }
    SendersFieldKnown(m, x.ticketSenderParams);
    assert AllKnown(m, PriceField(5, x.expectedPrice));
    hide AllKnown, BytesRecord, ExpirationField, ParamsField, PriceField, SendersField;
    var a, b := ParamsField(1, x.ticketParams), BytesRecord(2, x.sender);
    var c, d := ExpirationField(3, x.expirationParams), SendersField(4, x.ticketSenderParams);
    AppendKnown(m, a, b);
    AppendKnown(m, a + b, c);
    AppendKnown(m, a + b + c, d);
    AppendKnown(m, a + b + c + d, PriceField(5, x.expectedPrice));
  }

  lemma RecordsAreKnown(m: Message)
    requires InRange(m)
    ensures AllKnown(m, RecordsOf(m)) && Known(m, RecordsOf(m)) == RecordsOf(m)
  {
    match m {
      case PriceM(x) =>
        IntRecordKnown(m, 1, x.pricePerUnit);
        IntRecordKnown(m, 2, x.pixelsPerUnit);
        IntRecordKnown(m, 3, x.capability);
      case ExpirationM(x) => IntRecordKnown(m, 1, x.creationRound);
      case SenderM(x) => IntRecordKnown(m, 1, x.senderNonce);
      case ParamsM(x) => ParamsRecordsKnown(m, x);
      case PaymentM(x) => PaymentRecordsKnown(m);
    }
    KnownKeepsAll(m, RecordsOf(m));
  }

  lemma FoldOne(m: Message, r: Record)
    ensures Fold(m, [r]) == Apply(m, r)
  {
    hide Apply;
    assert [r][1..] == [];
  }

  lemma BytesBodyReads(v: Bytes)
    requires IsUint32(|v|)
    ensures ReadBytes(Varint(|v|) + v, 0) == Done(v, |Varint(|v|) + v|)
  {
    var buf := Varint(|v|) + v;
    assert At(buf, 0, buf);
    AtParts(buf, 0, Varint(|v|), v);
    Uint32Reads(buf, 0, |v|);
  }

  lemma IntBodyReads(v: int)
    requires IsInt64(v)
    ensures var s := Varint(FromInt64(v));
      ReadInt64(s, 0) == Done(v, |s|) && (IsUint32(v) ==> ReadUint32(s, 0) == Done(v, |s|))
  {
    var s := Varint(FromInt64(v));
    assert At(s, 0, s);
    Int64Reads(s, 0, v);
    if IsUint32(v) {
      Uint32Reads(s, 0, v);
    }
  }

  lemma FoldPrice(x: PriceInfo)
    requires PriceInRange(x)
    ensures Fold(PriceM(BASE_PRICE_INFO), PriceRecords(x)) == Some(PriceM(x))
  {
    var m0 := PriceM(BASE_PRICE_INFO);
    var m1 := PriceM(BASE_PRICE_INFO.(pricePerUnit := x.pricePerUnit));
    var m2 := PriceM(PriceInfo(x.pricePerUnit, x.pixelsPerUnit, 0, []));
    var m3 := PriceM(x.(constraint := []));
    var a, b := IntRecord(1, x.pricePerUnit), IntRecord(2, x.pixelsPerUnit);
    var c, d := IntRecord(3, x.capability), BytesRecord(4, x.constraint);
    FoldPriceInt(m0.price, 1, x.pricePerUnit);
    FoldPriceInt(m1.price, 2, x.pixelsPerUnit);
    FoldPriceInt(m2.price, 3, x.capability);
    FoldPriceBytes(m3.price, x.constraint);
    FoldAppend(m0, a, b, m1);
    FoldAppend(m0, a + b, c, m2);
    FoldAppend(m0, a + b + c, d, m3);
  }

  lemma FoldPriceInt(x: PriceInfo, no: nat, v: int)
    requires 1 <= no <= 3 && IsInt64(v) && (no == 3 ==> IsUint32(v))
    ensures Fold(PriceM(x), IntRecord(no, v)) == Some(PriceM(
      if v == 0 then x
      else if no == 1 then x.(pricePerUnit := v)
      else if no == 2 then x.(pixelsPerUnit := v)
      else x.(capability := v)))
  {
    hide ReadInt64, ReadUint32;
    if v != 0 {
      IntBodyReads(v);
      FoldOne(PriceM(x), IntRecord(no, v)[0]);
    }
  }

  lemma FoldPriceBytes(x: PriceInfo, v: Bytes)
    requires IsUint32(|v|)
    ensures Fold(PriceM(x), BytesRecord(4, v)) == Some(PriceM(if v == [] then x else x.(constraint := v)))
  {
    hide ReadBytes;
    if v != [] {
      BytesBodyReads(v);
      FoldOne(PriceM(x), Record(4, LenBody(v)));
    }
  }

  lemma FoldExpiration(x: TicketExpirationParams)
    requires ExpirationInRange(x)
    ensures Fold(ExpirationM(BASE_EXPIRATION_PARAMS), ExpirationRecords(x)) == Some(ExpirationM(x))
  {
    hide ReadInt64, ReadBytes;
    var m0, m1 := ExpirationM(BASE_EXPIRATION_PARAMS), ExpirationM(TicketExpirationParams(x.creationRound, []));
    if x.creationRound != 0 {
      IntBodyReads(x.creationRound);
      FoldOne(m0, IntRecord(1, x.creationRound)[0]);
    }
    if x.creationRoundBlockHash != [] {
      BytesBodyReads(x.creationRoundBlockHash);
      FoldOne(m1, Record(2, LenBody(x.creationRoundBlockHash)));
    }
    FoldAppend(m0, IntRecord(1, x.creationRound), BytesRecord(2, x.creationRoundBlockHash), m1);
  }

  lemma FoldSender(x: TicketSenderParams)
    requires SenderInRange(x)
    ensures Fold(SenderM(BASE_SENDER_PARAMS), SenderRecords(x)) == Some(SenderM(x))
  {
    hide ReadUint32, ReadBytes;
    var m0, m1 := SenderM(BASE_SENDER_PARAMS), SenderM(TicketSenderParams(x.senderNonce, []));
    if x.senderNonce != 0 {
      IntBodyReads(x.senderNonce);
      FoldOne(m0, IntRecord(1, x.senderNonce)[0]);
    }
    if x.sig != [] {
      BytesBodyReads(x.sig);
      FoldOne(m1, Record(2, LenBody(x.sig)));
    }
    FoldAppend(m0, IntRecord(1, x.senderNonce), BytesRecord(2, x.sig), m1);
  }

  lemma FoldParamsBytes(x: TicketParams, no: nat, v: Bytes)
    requires 1 <= no <= 6 && IsUint32(|v|)
    ensures Fold(ParamsM(x), BytesRecord(no, v)) == Some(ParamsM(
      if v == [] then x
      else if no == 1 then x.(recipient := v)
      else if no == 2 then x.(faceValue := v)
      else if no == 3 then x.(winProb := v)
      else if no == 4 then x.(recipientRandHash := v)
      else if no == 5 then x.(seed := v)
      else x.(expirationBlock := v)))
  {
    hide ReadBytes;
    if v != [] {
      BytesBodyReads(v);
      FoldOne(ParamsM(x), Record(no, LenBody(v)));
    }
  }

  /** A length-delimited record of a submessage reads as that submessage. */
  lemma NestedReads(sub: Message, raw: Bytes)
    requires Decode(Base(sub), raw) == Done(sub, |raw|) && IsUint32(|raw|)
    ensures ReadNested(Base(sub), Varint(|raw|) + raw, 0) == Done(sub, |Varint(|raw|) + raw|)
  {
    hide DecodeFields;
    var buf := Varint(|raw|) + raw;
    assert At(buf, 0, buf);
    AtParts(buf, 0, Varint(|raw|), raw);
    Uint32Reads(buf, 0, |raw|);
    DecodeFieldsLocal(Base(sub), raw, 0, |raw|, buf, |Varint(|raw|)|);
  }

  /** If the records of `m` fold to `m`, the bytes of `m` decode to `m` and are consumed exactly. */
  lemma EncodedReads(m: Message)
    requires InRange(m) && Fold(Base(m), RecordsOf(m)) == Some(m)
    ensures Decode(Base(m), Encode(m)) == Done(m, |Encode(m)|)
  {
    hide DecodeFields;
    RecordsAreKnown(m);
    assert At(Encode(m), 0, Encode(m));
    DecodeFolds(Base(m), RecordsOf(m), Encode(m), 0);
  }

  /** The record written for a submessage stores that submessage again. */
  lemma SubmessageFolds(m: Message, no: nat, sub: Message)
    requires HoldsAt(m, no, sub)
    requires InRange(sub) && IsUint32(|Encode(sub)|) && Fold(Base(sub), RecordsOf(sub)) == Some(sub)
    ensures Fold(m, [Record(no, LenBody(Encode(sub)))]) == Some(Store(m, no, sub))
  {
    EncodedReads(sub);
    NestedApplies(m, no, sub, Encode(sub));
    FoldOne(m, Record(no, LenBody(Encode(sub))));
  }

  lemma FoldExpirationField(x: TicketParams, v: Option<TicketExpirationParams>)
    requires v.Some? ==> NestedExpirationInRange(v.value)
    ensures Fold(ParamsM(x), ExpirationField(7, v))
      == Some(ParamsM(if v.None? then x else x.(expirationParams := v)))
  {
    if v.Some? {
      FoldExpiration(v.value);
      SubmessageFolds(ParamsM(x), 7, ExpirationM(v.value));
    }
  }

  lemma FoldParams(x: TicketParams)
    requires ParamsInRange(x)
    ensures Fold(ParamsM(BASE_TICKET_PARAMS), ParamsRecords(x)) == Some(ParamsM(x))
  {
    var x0 := BASE_TICKET_PARAMS;
    var x1 := x0.(recipient := x.recipient);
    var x2 := x1.(faceValue := x.faceValue);
    var x3 := x2.(winProb := x.winProb);
    var x4 := x3.(recipientRandHash := x.recipientRandHash);
    var x5 := x4.(seed := x.seed);
    var x6 := x5.(expirationBlock := x.expirationBlock);
    FoldParamsBytes(x0, 1, x.recipient);
    FoldParamsBytes(x1, 2, x.faceValue);
    FoldParamsBytes(x2, 3, x.winProb);
    FoldParamsBytes(x3, 4, x.recipientRandHash);
    FoldParamsBytes(x4, 5, x.seed);
    FoldParamsBytes(x5, 6, x.expirationBlock);
    FoldExpirationField(x6, x.expirationParams);
    hide Fold, BytesRecord, ExpirationField;
    var a, b := BytesRecord(1, x.recipient), BytesRecord(2, x.faceValue);
    var c, d := BytesRecord(3, x.winProb), BytesRecord(4, x.recipientRandHash);
    var e, f := BytesRecord(5, x.seed), BytesRecord(6, x.expirationBlock);
    FoldAppend(ParamsM(x0), a, b, ParamsM(x1));
    FoldAppend(ParamsM(x0), a + b, c, ParamsM(x2));
    FoldAppend(ParamsM(x0), a + b + c, d, ParamsM(x3));
    FoldAppend(ParamsM(x0), a + b + c + d, e, ParamsM(x4));
    FoldAppend(ParamsM(x0), a + b + c + d + e, f, ParamsM(x5));
    FoldAppend(ParamsM(x0), a + b + c + d + e + f, ExpirationField(7, x.expirationParams), ParamsM(x6));
  }

  lemma FoldParamsField(x: Payment, v: Option<TicketParams>)
    requires v.Some? ==> ParamsInRange(v.value) && IsUint32(|Flatten(ParamsRecords(v.value))|)
    ensures Fold(PaymentM(x), ParamsField(1, v))
      == Some(PaymentM(if v.None? then x else x.(ticketParams := v)))
  {
    if v.Some? {
      FoldParams(v.value);
      SubmessageFolds(PaymentM(x), 1, ParamsM(v.value));
    }
  }

  lemma FoldSenderBytes(x: Payment, v: Bytes)
    requires IsUint32(|v|)
    ensures Fold(PaymentM(x), BytesRecord(2, v)) == Some(PaymentM(if v == [] then x else x.(sender := v)))
  {
    hide ReadBytes;
    if v != [] {
      BytesBodyReads(v);
      FoldOne(PaymentM(x), Record(2, LenBody(v)));
    }
  }

  lemma FoldPaymentExpiration(x: Payment, v: Option<TicketExpirationParams>)
    requires v.Some? ==> NestedExpirationInRange(v.value)
    ensures Fold(PaymentM(x), ExpirationField(3, v))
      == Some(PaymentM(if v.None? then x else x.(expirationParams := v)))
  {
    if v.Some? {
      FoldExpiration(v.value);
      SubmessageFolds(PaymentM(x), 3, ExpirationM(v.value));
    }
  }

  lemma FoldOneSender(x: Payment, v: TicketSenderParams)
    requires SenderInRange(v) && IsUint32(|Flatten(SenderRecords(v))|)
    ensures Fold(PaymentM(x), [Record(4, LenBody(Flatten(SenderRecords(v))))])
      == Some(PaymentM(x.(ticketSenderParams := x.ticketSenderParams + [v])))
  {
    FoldSender(v);
    hide Fold;
    SubmessageFolds(PaymentM(x), 4, SenderM(v));
  }

  lemma {:induction false} FoldSenders(x: Payment, vs: seq<TicketSenderParams>)
    requires forall i | 0 <= i < |vs| :: SenderInRange(vs[i]) && IsUint32(|Flatten(SenderRecords(vs[i]))|)
    ensures Fold(PaymentM(x), SendersField(4, vs))
      == Some(PaymentM(x.(ticketSenderParams := x.ticketSenderParams + vs)))
    decreases vs
  {
    if vs == [] {
      assert x.ticketSenderParams + vs == x.ticketSenderParams;
    } else {
      hide Fold, SenderInRange, SenderRecords, Flatten, IsUint32;
      var head := [Record(4, LenBody(Flatten(SenderRecords(vs[0]))))];
      assert SendersField(4, vs) == head + SendersField(4, vs[1..]);
      hide SendersField;
      var x' := x.(ticketSenderParams := x.ticketSenderParams + [vs[0]]);
      assert x'.ticketSenderParams + vs[1..] == x.ticketSenderParams + vs;
      FoldOneSender(x, vs[0]);
      FoldSenders(x', vs[1..]);
      FoldAppend(PaymentM(x), head, SendersField(4, vs[1..]), PaymentM(x'));
    }
  }

  lemma FoldPriceField(x: Payment, v: Option<PriceInfo>)
    requires v.Some? ==> NestedPriceInRange(v.value)
    ensures Fold(PaymentM(x), PriceField(5, v))
      == Some(PaymentM(if v.None? then x else x.(expectedPrice := v)))
  {
    if v.Some? {
      FoldPrice(v.value);
      SubmessageFolds(PaymentM(x), 5, PriceM(v.value));
    }
  }

  lemma FoldPayment(x: Payment)
    requires InRange(PaymentM(x))
    ensures Fold(PaymentM(BASE_PAYMENT), RecordsOf(PaymentM(x))) == Some(PaymentM(x))
  {
    forall i | 0 <= i < |x.ticketSenderParams|
      ensures SenderInRange(x.ticketSenderParams[i])
      ensures IsUint32(|Flatten(SenderRecords(x.ticketSenderParams[i]))|)
    {
      assert NestedSenderInRange(x.ticketSenderParams[i]);
    }
    var x0 := BASE_PAYMENT;
    var x1 := x0.(ticketParams := x.ticketParams);
    var x2 := x1.(sender := x.sender);
    var x3 := x2.(expirationParams := x.expirationParams);
    var x4 := x3.(ticketSenderParams := x.ticketSenderParams);
    FoldParamsField(x0, x.ticketParams);
    FoldSenderBytes(x1, x.sender);
    FoldPaymentExpiration(x2, x.expirationParams);
    FoldSenders(x3, x.ticketSenderParams);
    FoldPriceField(x4, x.expectedPrice);
    assert x3.ticketSenderParams + x.ticketSenderParams == x.ticketSenderParams;
    hide Fold, BytesRecord, ExpirationField, ParamsField, SendersField, PriceField;
    var a, b := ParamsField(1, x.ticketParams), BytesRecord(2, x.sender);
    var c, d := ExpirationField(3, x.expirationParams), SendersField(4, x.ticketSenderParams);
    FoldAppend(PaymentM(x0), a, b, PaymentM(x1));
    FoldAppend(PaymentM(x0), a + b, c, PaymentM(x2));
    FoldAppend(PaymentM(x0), a + b + c, d, PaymentM(x3));
    FoldAppend(PaymentM(x0), a + b + c + d, PriceField(5, x.expectedPrice), PaymentM(x4));
  }

  lemma FoldsToItself(m: Message)
    requires InRange(m)
    ensures Fold(Base(m), RecordsOf(m)) == Some(m)
  {
    match m
    case PriceM(x) => FoldPrice(x);
    case ExpirationM(x) => FoldExpiration(x);
    case SenderM(x) => FoldSender(x);
    case ParamsM(x) => FoldParams(x);
    case PaymentM(x) => FoldPayment(x);
  }

  /** Round trip: decoding what an encoder wrote gives the message back and consumes every byte. */
  lemma RoundTrip(m: Message)
    requires InRange(m)
    ensures Decode(Base(m), Encode(m)) == Done(m, |Encode(m)|)
  {
    FoldsToItself(m);
    EncodedReads(m);
  }

  /** Inside any buffer, the same holds from where the bytes stand to where they end. */
  lemma RoundTripInside(m: Message, buf: Bytes, pos: nat)
    requires InRange(m) && At(buf, pos, Encode(m))
    ensures DecodeFields(Base(m), buf, pos, pos + |Encode(m)|) == Done(m, pos + |Encode(m)|)
  {
    hide DecodeFields, Encode;
    RoundTrip(m);
    DecodeFieldsLocal(Base(m), Encode(m), 0, |Encode(m)|, buf, pos);
  }

  /** No two messages of one kind are written as the same bytes. */
  lemma EncodeInjective(m: Message, n: Message)
    requires InRange(m) && InRange(n) && SameKind(m, n) && Encode(m) == Encode(n)
    ensures m == n
  {
    RoundTrip(m);
    RoundTrip(n);
    assert Base(m) == Base(n);
  }

  // ----------------------------------------------------------------------------------------------
  // Forward compatibility
  // ----------------------------------------------------------------------------------------------

  lemma {:induction false} SplicedApplies(m: Message, x: Message, o: Record, k: Record)
    requires SameKind(x, m) && SplicedRecord(m, o, k) && WellFormed(o) && WellFormed(k)
    ensures Apply(x, o) == Apply(x, k)
    decreases Depth(m), 0
  {
    if o != k {
      var sub: Message, inner: seq<Record> :|
        && HoldsAt(m, o.no, sub) && InRange(sub) && Spliced(sub, inner)
        && o.body == LenBody(Encode(sub)) && k.body == LenBody(Flatten(inner));
      hide DecodeFields, Apply, Spliced, Encode;
      DecodesSpliced(sub, inner);
      NestedApplies(x, o.no, sub, Flatten(inner));
      RoundTrip(sub);
      NestedApplies(x, o.no, sub, Encode(sub));
    }
  }

  lemma {:induction false} SplicedFolds(m: Message, x: Message, os: seq<Record>, ks: seq<Record>)
    requires SameKind(x, m) && |os| == |ks|
    requires forall i | 0 <= i < |os| :: WellFormed(os[i])
    requires forall i | 0 <= i < |ks| :: WellFormed(ks[i])
    requires forall i | 0 <= i < |os| :: SplicedRecord(m, os[i], ks[i])
    ensures Fold(x, os) == Fold(x, ks)
    decreases Depth(m), 1, |os|
  {
    hide Apply, SplicedRecord;
    if os != [] {
      SplicedApplies(m, x, os[0], ks[0]);
      if Apply(x, os[0]).Some? {
        SplicedFolds(m, Apply(x, os[0]).value, os[1..], ks[1..]);
      }
    }
  }

  lemma {:induction false} KnownAreAmong(m: Message, rs: seq<Record>)
    requires forall i | 0 <= i < |rs| :: WellFormed(rs[i])
    ensures forall i | 0 <= i < |Known(m, rs)| :: WellFormed(Known(m, rs)[i])
  {
    if rs != [] {
      KnownAreAmong(m, rs[1..]);
    }
  }

  /**
   Forward compatibility: an encoded message with foreign records spliced in, at its own record boundaries and
   inside its submessages to any depth, decodes to the same message.
   */
  lemma {:induction false} DecodesSpliced(m: Message, rs: seq<Record>)
    requires InRange(m) && Spliced(m, rs)
    ensures Decode(Base(m), Flatten(rs)) == Done(m, |Flatten(rs)|)
    decreases Depth(m), 2
  {
    hide DecodeFields, SplicedRecord;
    FoldIgnoresUnknown(Base(m), rs);
    KnownOfKind(Base(m), m, rs);
    KnownAreAmong(m, rs);
    RecordsAreKnown(m);
    SplicedFolds(m, Base(m), RecordsOf(m), Known(m, rs));
    FoldsToItself(m);
    assert At(Flatten(rs), 0, Flatten(rs));
    DecodeFolds(Base(m), rs, Flatten(rs), 0);
  }

  /** Foreign records change nothing, wherever they stand and whatever the known records are: the decode loop gives the
      value it gives with them taken out, and still consumes every byte. */
  lemma DecodeIgnoresUnknown(m: Message, rs: seq<Record>)
    requires forall i | 0 <= i < |rs| :: WellFormed(rs[i])
    requires Fold(Base(m), Known(m, rs)).Some?
    ensures var clean := Decode(Base(m), Flatten(Known(m, rs)));
      clean.Done? && Decode(Base(m), Flatten(rs)) == Done(clean.value, |Flatten(rs)|)
  {
    hide DecodeFields, Fold, WellFormed, Flatten;
    KnownAreAmong(m, rs);
    hide Known;
    KnownOfKind(Base(m), m, rs);
    FoldIgnoresUnknown(Base(m), rs);
    assert At(Flatten(rs), 0, Flatten(rs));
    DecodeFolds(Base(m), rs, Flatten(rs), 0);
    assert At(Flatten(Known(m, rs)), 0, Flatten(Known(m, rs)));
    DecodeFolds(Base(m), Known(m, rs), Flatten(Known(m, rs)), 0);
  }

  /** Splicing nothing is a splice, so every encoded message meets the premise of `DecodesSpliced`. */
  lemma WrittenIsSpliced(m: Message)
    requires InRange(m)
    ensures Spliced(m, RecordsOf(m))
  {
    RecordsAreKnown(m);
  }
}
