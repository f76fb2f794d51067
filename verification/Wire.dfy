/**
 The byte layer of the Protocol Buffers wire format ("Base 128 Varints", "Message Structure" and
 "Length-Delimited Records" in the Protocol Buffers encoding specification): reading at a position of a
 buffer, skipping a field of any wire type, and well-formed records as values.
 */
module Wire {
  import opened Division
  import opened Wrappers

  type Byte = b: int | 0 <= b < 256
  type Bytes = seq<Byte>

  const TWO_TO_THE_32: int := 0x1_0000_0000
  const TWO_TO_THE_63: int := 0x8000_0000_0000_0000
  const TWO_TO_THE_64: int := 0x1_0000_0000_0000_0000
  const MAX_FIELD_NUMBER: int := 0x1FFF_FFFF
  const MAX_VARINT_BYTES: nat := 10

  datatype Error =
    | PrematureEof
    | InvalidVarint
    | UnknownWireType
    | IllegalTag
    | InvalidEndGroup
    | ValueTooLarge

  /** Outcome of reading at a position: a value and the next position, or a thrown error. */
  datatype Parsed<+T> = Done(value: T, pos: nat) | Fail(error: Error) {

    predicate IsFailure() {
      Fail?
    }

    function PropagateFailure<U>(): Parsed<U>
      requires Fail?
    {
      Fail(error)
    }

    function Extract(): (T, nat)
      requires Done?
    {
      (value, pos)
    }
  }

  // ----------------------------------------------------------------------------------------------
  // Reading
  // ----------------------------------------------------------------------------------------------

  /** Reads base-128 groups, least significant first; a varint that reaches index `limit` is too long. */
  function ReadVarint(buf: Bytes, pos: nat, limit: nat): (r: Parsed<nat>)
    ensures r.Done? ==> pos < r.pos <= |buf|
    decreases limit - pos
  {
    if pos >= limit then Fail(InvalidVarint)
    else if pos >= |buf| then Fail(PrematureEof)
    else if buf[pos] < 128 then Done(buf[pos], pos + 1)
    else
      var (high, next) :- ReadVarint(buf, pos + 1, limit);
      Done(buf[pos] - 128 + 128 * high, next)
  }

  function ReadUint32(buf: Bytes, pos: nat): (r: Parsed<nat>)
    ensures r.Done? ==> pos < r.pos <= |buf| && r.value < TWO_TO_THE_32
  {
    var (v, next) :- ReadVarint(buf, pos, pos + MAX_VARINT_BYTES);
    Done(v % TWO_TO_THE_32, next)
  }

  /** Two's complement, as BigInt.asIntN(64, ..) gives it. */
  function AsInt64(v: nat): (i: int)
    ensures -TWO_TO_THE_63 <= i < TWO_TO_THE_63
  {
    var low := v % TWO_TO_THE_64;
    if low < TWO_TO_THE_63 then low else low - TWO_TO_THE_64
  }

  function ReadInt64(buf: Bytes, pos: nat): (r: Parsed<int>)
    ensures r.Done? ==> pos < r.pos <= |buf|
  {
    var (v, next) :- ReadVarint(buf, pos, pos + MAX_VARINT_BYTES);
    Done(AsInt64(v), next)
  }

  /** The position `count` bytes on, checked against the end of the buffer. */
  function Advance(buf: Bytes, pos: nat, count: nat): (r: Result<nat, Error>)
    ensures r.Ok? ==> r.value == pos + count <= |buf|
  {
    if pos + count <= |buf| then Ok(pos + count) else Err(PrematureEof)
  }

  function ReadBytes(buf: Bytes, pos: nat): (r: Parsed<Bytes>)
    ensures r.Done? ==> pos < r.pos <= |buf|
  {
    var (count, start) :- ReadUint32(buf, pos);
    match Advance(buf, start, count)
    case Err(e) => Fail(e)
    case Ok(next) => Done(buf[start..next], next)
  }

  function SkipVarint(buf: Bytes, pos: nat): (r: Result<nat, Error>)
    requires pos <= |buf|
    ensures r.Ok? ==> pos < r.value <= |buf|
    decreases |buf| - pos
  {
    if pos == |buf| then Err(PrematureEof)
    else if buf[pos] < 128 then Ok(pos + 1)
    else SkipVarint(buf, pos + 1)
  }

  /** Skips a body that is not a group. */
  function SkipScalar(buf: Bytes, pos: nat, wireType: nat): (r: Result<nat, Error>)
    requires pos <= |buf|
    ensures r.Ok? ==> pos <= r.value <= |buf|
  {
    match wireType
    case 0 => SkipVarint(buf, pos)
    case 1 => Advance(buf, pos, 8)
    case 2 =>
      (match ReadUint32(buf, pos)
       case Fail(e) => Err(e)
       case Done(count, start) => Advance(buf, start, count))
    case 5 => Advance(buf, pos, 4)
    case _ => Err(UnknownWireType)
  }

  /**
   Skips to the end of the innermost of the open groups, then of the next, until none is open. `open[0]` is
   the innermost; `Some(no)` means its end tag must carry that field number.
   */
  function SkipOpenGroups(buf: Bytes, pos: nat, open: seq<Option<nat>>): (r: Result<nat, Error>)
    requires pos <= |buf|
    ensures r.Ok? ==> pos <= r.value <= |buf|
    decreases |buf| - pos
  {
    if open == [] then Ok(pos)
    else
      match ReadUint32(buf, pos)
      case Fail(e) => Err(e)
      case Done(tag, next) =>
        if tag / 8 == 0 || tag % 8 > 5 then Err(IllegalTag)
        else if tag % 8 == 4 then
          if open[0].Some? && open[0].value != tag / 8 then Err(InvalidEndGroup)
          else SkipOpenGroups(buf, next, open[1..])
        else if tag % 8 == 3 then SkipOpenGroups(buf, next, [Some(tag / 8)] + open)
        else
          match SkipScalar(buf, next, tag % 8)
          case Err(e) => Err(e)
          case Ok(after) => SkipOpenGroups(buf, after, open)
  }

  /** Skips the body of a field whose tag has been read. A group may end with any end tag. */
  function Skip(buf: Bytes, pos: nat, wireType: nat): (r: Result<nat, Error>)
    requires pos <= |buf|
    ensures r.Ok? ==> pos <= r.value <= |buf|
  {
    if wireType == 3 then SkipOpenGroups(buf, pos, [None]) else SkipScalar(buf, pos, wireType)
  }

  /** One turn of the group loop: what the record read at `pos` does to the open groups. */
  lemma GroupTurn(buf: Bytes, pos: nat, open: seq<Option<nat>>, tag: nat, next: nat)
    requires pos <= |buf| && next <= |buf| && open != [] && ReadUint32(buf, pos) == Done(tag, next)
    requires tag / 8 != 0 && tag % 8 <= 5
    ensures SkipOpenGroups(buf, pos, open) ==
      if tag % 8 == 4 then
        if open[0].Some? && open[0].value != tag / 8 then Err(InvalidEndGroup)
        else SkipOpenGroups(buf, next, open[1..])
      else if tag % 8 == 3 then SkipOpenGroups(buf, next, [Some(tag / 8)] + open)
      else
        match SkipScalar(buf, next, tag % 8)
        case Err(e) => Err(e)
        case Ok(after) => SkipOpenGroups(buf, after, open)
  {
  }

  lemma NoOpenGroup(buf: Bytes, pos: nat)
    requires pos <= |buf|
    ensures SkipOpenGroups(buf, pos, []) == Ok(pos)
  {
  }

  lemma GroupGoesOn(buf: Bytes, pos: nat, open: seq<Option<nat>>)
    requires pos <= |buf| && open != [] && SkipOpenGroups(buf, pos, open).Ok?
    ensures ReadUint32(buf, pos).Done?
    ensures var tag := ReadUint32(buf, pos).value; tag / 8 != 0 && tag % 8 <= 5
  {
  }

  // ----------------------------------------------------------------------------------------------
  // Writing
  // ----------------------------------------------------------------------------------------------

  function Varint(n: nat): (s: Bytes)
    ensures |s| >= 1
  {
    if n < 128 then [n] else [128 + n % 128] + Varint(n / 128)
  }

  function FromInt64(i: int): (v: nat)
    requires -TWO_TO_THE_63 <= i < TWO_TO_THE_63
    ensures v < TWO_TO_THE_64 && AsInt64(v) == i
  {
    if i >= 0 then i else i + TWO_TO_THE_64
  }

  // ----------------------------------------------------------------------------------------------
  // Records
  // ----------------------------------------------------------------------------------------------

  /** One tag-and-body record of a message, as the specification's message structure lists them. */
  datatype Record = Record(no: nat, body: Body)

  datatype Body =
    | VarintBody(raw: Bytes)
    | Fixed64Body(raw: Bytes)
    | LenBody(raw: Bytes)
    | GroupBody(items: seq<Record>)
    | Fixed32Body(raw: Bytes)
  {
    function WireType(): nat {
      match this
      case VarintBody(_) => 0
      case Fixed64Body(_) => 1
      case LenBody(_) => 2
      case GroupBody(_) => 3
      case Fixed32Body(_) => 5
    }
  }

  predicate IsVarint(raw: Bytes) {
    |raw| > 0 && raw[|raw| - 1] < 128 && forall i | 0 <= i < |raw| - 1 :: raw[i] >= 128
  }

  predicate WellFormed(r: Record)
    decreases r
  {
    && 1 <= r.no <= MAX_FIELD_NUMBER
    && match r.body {
         case VarintBody(raw) => IsVarint(raw)
         case Fixed64Body(raw) => |raw| == 8
         case LenBody(raw) => |raw| < TWO_TO_THE_32
         case GroupBody(items) => forall i | 0 <= i < |items| :: WellFormed(items[i])
         case Fixed32Body(raw) => |raw| == 4
       }
  }

  function Tag(r: Record): nat {
    r.no * 8 + r.body.WireType()
  }

  function BodyBytes(r: Record): Bytes
    decreases r, 0
  {
    match r.body
    case VarintBody(raw) => raw
    case Fixed64Body(raw) => raw
    case LenBody(raw) => Varint(|raw|) + raw
    case GroupBody(items) => Flatten(items) + Varint(r.no * 8 + 4)
    case Fixed32Body(raw) => raw
  }

  function RecordBytes(r: Record): (s: Bytes)
    ensures |s| >= 1
    decreases r, 1
  {
    Varint(Tag(r)) + BodyBytes(r)
  }

  function Flatten(rs: seq<Record>): Bytes
    decreases rs
  {
    if rs == [] then [] else RecordBytes(rs[0]) + Flatten(rs[1..])
  }

  // ----------------------------------------------------------------------------------------------
  // Reading back what was written
  // ----------------------------------------------------------------------------------------------

  /** `part` stands in `buf` at `pos`. */
  ghost predicate At(buf: Bytes, pos: nat, part: Bytes) {
    pos + |part| <= |buf| && buf[pos..pos + |part|] == part
  }

  lemma AtParts(buf: Bytes, pos: nat, a: Bytes, b: Bytes)
    requires At(buf, pos, a + b)
    ensures At(buf, pos, a) && At(buf, pos + |a|, b)
  {
    assert buf[pos..pos + |a|] == (a + b)[..|a|] == a;
    assert buf[pos + |a|..pos + |a + b|] == (a + b)[|a|..] == b;
  }

  function Pow128(k: nat): (p: nat)
    ensures p >= 1
  {
    if k == 0 then 1 else 128 * Pow128(k - 1)
  }

  lemma {:induction false} VarintReads(buf: Bytes, pos: nat, n: nat, limit: nat)
    requires At(buf, pos, Varint(n)) && limit > pos && n < Pow128(limit - pos)
    ensures ReadVarint(buf, pos, limit) == Done(n, pos + |Varint(n)|)
    decreases limit - pos
  {
    var s := Varint(n);
    assert buf[pos] == buf[pos..pos + |s|][0];
    if n >= 128 {
      assert s == [128 + n % 128] + Varint(n / 128);
      AtParts(buf, pos, [128 + n % 128], Varint(n / 128));
      VarintReads(buf, pos + 1, n / 128, limit);
    }
  }

  lemma Uint32Reads(buf: Bytes, pos: nat, n: nat)
    requires At(buf, pos, Varint(n)) && n < TWO_TO_THE_32
    ensures ReadUint32(buf, pos) == Done(n, pos + |Varint(n)|)
  {
    assert n < Pow128(10);
    VarintReads(buf, pos, n, pos + MAX_VARINT_BYTES);
  }

  lemma Int64Reads(buf: Bytes, pos: nat, i: int)
    requires -TWO_TO_THE_63 <= i < TWO_TO_THE_63
    requires At(buf, pos, Varint(FromInt64(i)))
    ensures ReadInt64(buf, pos) == Done(i, pos + |Varint(FromInt64(i))|)
  {
    assert FromInt64(i) < Pow128(10);
    VarintReads(buf, pos, FromInt64(i), pos + MAX_VARINT_BYTES);
  }

  /** An int64 varint is a well-formed varint body, of at most ten bytes. */
  lemma {:induction false} VarintIsVarint(n: nat)
    ensures IsVarint(Varint(n))
  {
    if n >= 128 {
      VarintIsVarint(n / 128);
      var t := Varint(n / 128);
      assert Varint(n) == [128 + n % 128] + t;
    }
  }

  // ----------------------------------------------------------------------------------------------
  // Locality: a read that succeeds inside `part` reads the same wherever `part` stands
  // ----------------------------------------------------------------------------------------------

  lemma {:induction false} ReadVarintLocal(part: Bytes, pos: nat, buf: Bytes, off: nat, limit: nat)
    requires At(buf, off, part) && ReadVarint(part, pos, limit).Done?
    ensures var r := ReadVarint(part, pos, limit);
      ReadVarint(buf, off + pos, off + limit) == Done(r.value, off + r.pos)
    decreases limit - pos
  {
    assert part[pos] == buf[off..off + |part|][pos] == buf[off + pos];
    if part[pos] >= 128 {
      ReadVarintLocal(part, pos + 1, buf, off, limit);
    }
  }

  lemma ReadUint32Local(part: Bytes, pos: nat, buf: Bytes, off: nat)
    requires At(buf, off, part) && ReadUint32(part, pos).Done?
    ensures var r := ReadUint32(part, pos); ReadUint32(buf, off + pos) == Done(r.value, off + r.pos)
  {
    ReadVarintLocal(part, pos, buf, off, pos + MAX_VARINT_BYTES);
  }

  lemma ReadBytesLocal(part: Bytes, pos: nat, buf: Bytes, off: nat)
    requires At(buf, off, part) && ReadBytes(part, pos).Done?
    ensures var r := ReadBytes(part, pos); ReadBytes(buf, off + pos) == Done(r.value, off + r.pos)
  {
    ReadUint32Local(part, pos, buf, off);
    var end, start := ReadBytes(part, pos).pos, ReadUint32(part, pos).pos;
    forall i | start <= i < end
      ensures buf[off + i] == part[i]
    {
      assert part[i] == buf[off..off + |part|][i];
    }
    assert buf[off + start..off + end] == part[start..end];
  }

  lemma {:induction false} SkipVarintLocal(part: Bytes, pos: nat, buf: Bytes, off: nat)
    requires At(buf, off, part) && pos <= |part| && SkipVarint(part, pos).Ok?
    ensures SkipVarint(buf, off + pos) == Ok(off + SkipVarint(part, pos).value)
    decreases |part| - pos
  {
    assert part[pos] == buf[off..off + |part|][pos] == buf[off + pos];
    if part[pos] >= 128 {
      SkipVarintLocal(part, pos + 1, buf, off);
    }
  }

  lemma SkipScalarLocal(part: Bytes, pos: nat, buf: Bytes, off: nat, wireType: nat)
    requires At(buf, off, part) && pos <= |part| && SkipScalar(part, pos, wireType).Ok?
    ensures SkipScalar(buf, off + pos, wireType) == Ok(off + SkipScalar(part, pos, wireType).value)
  {
    if wireType == 0 {
      SkipVarintLocal(part, pos, buf, off);
    } else if wireType == 2 {
      ReadUint32Local(part, pos, buf, off);
    }
  }

  lemma {:induction false} SkipOpenGroupsLocal(part: Bytes, pos: nat, buf: Bytes, off: nat, open: seq<Option<nat>>)
    requires At(buf, off, part) && pos <= |part| && SkipOpenGroups(part, pos, open).Ok?
    ensures SkipOpenGroups(buf, off + pos, open) == Ok(off + SkipOpenGroups(part, pos, open).value)
    decreases |part| - pos
  {
    hide SkipOpenGroups, SkipScalar, ReadUint32;
    if open == [] {
      NoOpenGroup(part, pos);
      NoOpenGroup(buf, off + pos);
    } else {
      GroupGoesOn(part, pos, open);
      var Done(tag, next) := ReadUint32(part, pos);
      ReadUint32Local(part, pos, buf, off);
      GroupTurn(part, pos, open, tag, next);
      GroupTurn(buf, off + pos, open, tag, off + next);
      if tag % 8 == 4 {
        SkipOpenGroupsLocal(part, next, buf, off, open[1..]);
      } else if tag % 8 == 3 {
        SkipOpenGroupsLocal(part, next, buf, off, [Some(tag / 8)] + open);
      } else {
        SkipScalarLocal(part, next, buf, off, tag % 8);
        SkipOpenGroupsLocal(part, SkipScalar(part, next, tag % 8).value, buf, off, open);
      }
    }
  }

  lemma SkipLocal(part: Bytes, pos: nat, buf: Bytes, off: nat, wireType: nat)
    requires At(buf, off, part) && pos <= |part| && Skip(part, pos, wireType).Ok?
    ensures Skip(buf, off + pos, wireType) == Ok(off + Skip(part, pos, wireType).value)
  {
    if wireType == 3 {
      SkipOpenGroupsLocal(part, pos, buf, off, [None]);
    } else {
      SkipScalarLocal(part, pos, buf, off, wireType);
    }
  }

  // ----------------------------------------------------------------------------------------------
  // Skipping a well-formed record
  // ----------------------------------------------------------------------------------------------

  lemma {:induction false} SkipVarintBody(buf: Bytes, pos: nat, raw: Bytes)
    requires At(buf, pos, raw) && IsVarint(raw)
    ensures SkipVarint(buf, pos) == Ok(pos + |raw|)
    decreases |raw|
  {
    assert buf[pos] == buf[pos..pos + |raw|][0];
    if |raw| > 1 {
      assert raw == raw[..1] + raw[1..];
      AtParts(buf, pos, raw[..1], raw[1..]);
      SkipVarintBody(buf, pos + 1, raw[1..]);
    }
  }

  lemma SkipsScalarBody(buf: Bytes, pos: nat, r: Record)
    requires WellFormed(r) && !r.body.GroupBody? && At(buf, pos, BodyBytes(r))
    ensures SkipScalar(buf, pos, r.body.WireType()) == Ok(pos + |BodyBytes(r)|)
  {
    match r.body
    case VarintBody(raw) => SkipVarintBody(buf, pos, raw);
    case LenBody(raw) =>
      AtParts(buf, pos, Varint(|raw|), raw);
      Uint32Reads(buf, pos, |raw|);
    case _ =>
  }

  lemma {:induction false} SkipsItems(buf: Bytes, pos: nat, items: seq<Record>, open: seq<Option<nat>>)
    requires forall i | 0 <= i < |items| :: WellFormed(items[i])
    requires At(buf, pos, Flatten(items)) && open != []
    ensures SkipOpenGroups(buf, pos, open) == SkipOpenGroups(buf, pos + |Flatten(items)|, open)
    decreases items
  {
    hide SkipOpenGroups, SkipScalar, ReadUint32, RecordBytes, BodyBytes, At;
    if items != [] {
      var r, rest := items[0], items[1..];
      AtParts(buf, pos, RecordBytes(r), Flatten(rest));
      TagReads(buf, pos, r);
      RecordSplits(r);
      var next := pos + |Varint(Tag(r))|;
      GroupTurn(buf, pos, open, Tag(r), next);
      if r.body.GroupBody? {
        SkipsGroup(buf, next, r, Some(r.no), open);
      } else {
        SkipsScalarBody(buf, next, r);
      }
      SkipsItems(buf, pos + |RecordBytes(r)|, rest, open);
    }
  }

  /** Behind the start tag of a well-formed group, skipping closes that group and no other. */
  lemma {:induction false} SkipsGroup(buf: Bytes, pos: nat, r: Record, top: Option<nat>, open: seq<Option<nat>>)
    requires WellFormed(r) && r.body.GroupBody? && At(buf, pos, BodyBytes(r))
    requires top == None || top == Some(r.no)
    ensures SkipOpenGroups(buf, pos, [top] + open) == SkipOpenGroups(buf, pos + |BodyBytes(r)|, open)
    decreases r
  {
    hide SkipOpenGroups, ReadUint32;
    var items, close := r.body.items, Varint(r.no * 8 + 4);
    AtParts(buf, pos, Flatten(items), close);
    SkipsItems(buf, pos, items, [top] + open);
    Uint32Reads(buf, pos + |Flatten(items)|, r.no * 8 + 4);
    GroupTurn(buf, pos + |Flatten(items)|, [top] + open, r.no * 8 + 4, pos + |BodyBytes(r)|);
    assert ([top] + open)[1..] == open;
  }

  /** Skipping consumes exactly the body of any well-formed record, groups of any depth included. */
  lemma SkipsRecord(buf: Bytes, pos: nat, r: Record)
    requires WellFormed(r) && At(buf, pos, BodyBytes(r))
    ensures Skip(buf, pos, r.body.WireType()) == Ok(pos + |BodyBytes(r)|)
  {
    if r.body.GroupBody? {
      var closed: seq<Option<nat>> := [];
      SkipsGroup(buf, pos, r, None, closed);
      assert [None] + closed == [None];
    } else {
      SkipsScalarBody(buf, pos, r);
    }
  }

  lemma RecordSplits(r: Record)
    ensures RecordBytes(r) == Varint(Tag(r)) + BodyBytes(r)
  {
  }

  lemma TagReads(buf: Bytes, pos: nat, r: Record)
    requires WellFormed(r) && At(buf, pos, RecordBytes(r))
    ensures ReadUint32(buf, pos) == Done(Tag(r), pos + |Varint(Tag(r))|)
    ensures At(buf, pos + |Varint(Tag(r))|, BodyBytes(r))
    ensures Tag(r) / 8 == r.no && Tag(r) % 8 == r.body.WireType()
  {
    AtParts(buf, pos, Varint(Tag(r)), BodyBytes(r));
    Uint32Reads(buf, pos, Tag(r));
  }

  lemma {:induction false} FlattenAppend(a: seq<Record>, b: seq<Record>)
    ensures Flatten(a + b) == Flatten(a) + Flatten(b)
  {
    if a == [] {
      assert a + b == b;
    } else {
      assert (a + b)[0] == a[0] && (a + b)[1..] == a[1..] + b;
      FlattenAppend(a[1..], b);
    }
  }

  // ----------------------------------------------------------------------------------------------
  // The format, digit by digit and tag by tag
  // ----------------------------------------------------------------------------------------------

  /** Seven bits to a byte, the least significant first, the high bit set on all but the last byte. */
  lemma {:induction false} VarintDigits(n: nat, i: nat)
    requires i < |Varint(n)|
    ensures Varint(n)[i] == n / Pow128(i) % 128 + if i < |Varint(n)| - 1 then 128 else 0
    decreases n
  {
    if n >= 128 && i > 0 {
      VarintDigits(n / 128, i - 1);
      DivideTwice(n, 128, Pow128(i - 1));
    }
  }

  /** The specification's own example. */
  lemma VarintOf150()
    ensures Varint(150) == [0x96, 0x01]
  {
    assert Varint(150 / 128) == [1];
  }

  /** Any varint, also one with more bytes than it needs, reads as the number whose groups of seven bits it holds. */
  lemma {:induction false} ReadsGroups(buf: Bytes, pos: nat, raw: Bytes, limit: nat, i: nat)
    requires At(buf, pos, raw) && IsVarint(raw) && pos + |raw| <= limit && i < |raw|
    ensures var r := ReadVarint(buf, pos, limit);
      && r.Done? && r.pos == pos + |raw|
      && r.value / Pow128(i) % 128 == raw[i] % 128
      && r.value < Pow128(|raw|)
    decreases |raw|
  {
    assert buf[pos] == buf[pos..pos + |raw|][0];
    if |raw| == 1 {
    } else {
      assert raw == raw[..1] + raw[1..];
      AtParts(buf, pos, raw[..1], raw[1..]);
      ReadsGroups(buf, pos + 1, raw[1..], limit, if i == 0 then 0 else i - 1);
      var v, high := ReadVarint(buf, pos, limit).value, ReadVarint(buf, pos + 1, limit).value;
      assert v == high * 128 + (raw[0] - 128);
      hide ReadVarint, At, IsVarint;
      Quotient(v, high, 128, raw[0] - 128);
      if i > 0 {
        DivideTwice(v, 128, Pow128(i - 1));
      }
    }
  }

  /** Reading a varint fails exactly if none ends within the limit: for want of bytes, or as too long. */
  lemma {:induction false} VarintFailsExactly(buf: Bytes, pos: nat, limit: nat)
    ensures var r := ReadVarint(buf, pos, limit);
      && (r.Done? <==> exists k | pos <= k < limit && k < |buf| :: buf[k] < 128 && AllHigh(buf, pos, k))
      && (r.Fail? ==> r.error == if limit <= |buf| || limit <= pos then InvalidVarint else PrematureEof)
    decreases limit - pos
  {
    if pos < limit && pos < |buf| {
      if buf[pos] < 128 {
        assert AllHigh(buf, pos, pos);
      } else {
        VarintFailsExactly(buf, pos + 1, limit);
        if k :| pos + 1 <= k < limit && k < |buf| && buf[k] < 128 && AllHigh(buf, pos + 1, k) {
          assert AllHigh(buf, pos, k);
        }
        if k :| pos <= k < limit && k < |buf| && buf[k] < 128 && AllHigh(buf, pos, k) {
          assert AllHigh(buf, pos + 1, k);
        }
      }
    }
  }

  ghost predicate AllHigh(buf: Bytes, from: nat, to: nat)
    requires to <= |buf|
  {
    forall j | from <= j < to :: buf[j] >= 128
  }

  /** An unsigned field keeps the low 32 bits of at most ten bytes, a signed one the low 64 in two's complement. */
  lemma IntegersKeepLowBits(buf: Bytes, pos: nat)
    ensures var v, u, i := ReadVarint(buf, pos, pos + 10), ReadUint32(buf, pos), ReadInt64(buf, pos);
      && (v.Fail? ==> u == Fail(v.error) && i == Fail(v.error))
      && (v.Done? ==>
            && u == Done(v.value % 0x1_0000_0000, v.pos)
            && i.Done? && i.pos == v.pos && (v.value - i.value) % 0x1_0000_0000_0000_0000 == 0
            && -0x8000_0000_0000_0000 <= i.value <= 0x7FFF_FFFF_FFFF_FFFF)
  {
    var v := ReadVarint(buf, pos, pos + MAX_VARINT_BYTES);
    hide ReadVarint;
    assert v == ReadVarint(buf, pos, pos + 10);
    if v.Done? {
      var low := v.value % TWO_TO_THE_64;
      assert v.value == v.value / TWO_TO_THE_64 * TWO_TO_THE_64 + low;
    }
  }

  /** A tag is the field number times eight and the wire type; a body is framed as its wire type says. */
  lemma RecordLayout(no: nat, raw: Bytes, items: seq<Record>)
    ensures RecordBytes(Record(no, VarintBody(raw))) == Varint(8 * no) + raw
    ensures RecordBytes(Record(no, Fixed64Body(raw))) == Varint(8 * no + 1) + raw
    ensures RecordBytes(Record(no, LenBody(raw))) == Varint(8 * no + 2) + (Varint(|raw|) + raw)
    ensures RecordBytes(Record(no, GroupBody(items))) == Varint(8 * no + 3) + (Flatten(items) + Varint(8 * no + 4))
    ensures RecordBytes(Record(no, Fixed32Body(raw))) == Varint(8 * no + 5) + raw
  {
    hide Varint, Flatten;
  }

  /** How far each wire type is skipped; the end of a group and the unused types are refused. */
  lemma SkipByWireType(buf: Bytes, pos: nat)
    requires pos <= |buf|
    ensures Skip(buf, pos, 1) == if pos + 8 <= |buf| then Ok(pos + 8) else Err(PrematureEof)
    ensures Skip(buf, pos, 5) == if pos + 4 <= |buf| then Ok(pos + 4) else Err(PrematureEof)
    ensures var count := ReadUint32(buf, pos);
      Skip(buf, pos, 2) ==
        if count.Fail? then Err(count.error)
        else if count.pos + count.value <= |buf| then Ok(count.pos + count.value)
        else Err(PrematureEof)
    ensures forall t | t == 4 || t == 6 || t == 7 :: Skip(buf, pos, t) == Err(UnknownWireType)
  {
    hide ReadUint32;
  }
}
