/**
 Conversions between the domain's ticket parameters (bigints and hex strings) and the wire message (byte
 strings): big-endian integers by way of hexadecimal digits, and hex strings by way of Node's hex codec.
 */
module Convert {
  import opened Decimals
  import opened Division
  import opened Wrappers
  import opened Wire
  import opened Messages

  datatype ConvertError = NegativeValue

  // ----------------------------------------------------------------------------------------------
  // Hexadecimal digits
  // ----------------------------------------------------------------------------------------------

  predicate IsHexDigit(c: char) {
    '0' <= c <= '9' || 'a' <= c <= 'f' || 'A' <= c <= 'F'
  }

  function HexValue(c: char): (d: nat)
    requires IsHexDigit(c)
    ensures d < 16
  {
    if '0' <= c <= '9' then c as int - '0' as int
    else if 'a' <= c <= 'f' then c as int - 'a' as int + 10
    else c as int - 'A' as int + 10
  }

  /** A digit of `toString(16)` and of Node's hex encoder: lower case. */
  function HexDigit(d: nat): (c: char)
    requires d < 16
    ensures IsHexDigit(c) && HexValue(c) == d && LowerDigit(c) == c
  {
    if d < 10 then ('0' as int + d) as char else ('a' as int + d - 10) as char
  }

  predicate AllHex(s: string) {
    forall i | 0 <= i < |s| :: IsHexDigit(s[i])
  }

  /** A hex digit in lower case; any other character unchanged. */
  function LowerDigit(c: char): char {
    if 'A' <= c <= 'F' then (c as int - 'A' as int + 'a' as int) as char else c
  }

  function LowerHex(s: string): string {
    seq(|s|, i requires 0 <= i < |s| => LowerDigit(s[i]))
  }

  /** `value.toString(16)` for a non-negative bigint. */
  function ToHex(n: nat): (s: string)
    ensures |s| > 0 && AllHex(s)
  {
    if n < 16 then [HexDigit(n)] else ToHex(n / 16) + [HexDigit(n % 16)]
  }

  /** `BigInt('0x' + s)`. */
  function HexToNat(s: string): nat
    requires AllHex(s)
  {
    if s == "" then 0 else 16 * HexToNat(s[..|s| - 1]) + HexValue(s[|s| - 1])
  }

  /** `Buffer.from(s, 'hex')`: bytes up to the first pair that is not two hex digits. */
  function FromHex(s: string): Bytes {
    if |s| < 2 || !IsHexDigit(s[0]) || !IsHexDigit(s[1]) then []
    else [16 * HexValue(s[0]) + HexValue(s[1])] + FromHex(s[2..])
  }

  /** `buf.toString('hex')`. */
  function HexOf(b: Bytes): (s: string)
    ensures |s| == 2 * |b| && AllHex(s)
  {
    if b == [] then "" else [HexDigit(b[0] / 16), HexDigit(b[0] % 16)] + HexOf(b[1..])
  }

  // ----------------------------------------------------------------------------------------------
  // The conversions
  // ----------------------------------------------------------------------------------------------

  function BigintToBigEndianBytes(value: int): Result<Bytes, ConvertError> {
    if value < 0 then Err(NegativeValue)
    else if value == 0 then Ok([])
    else
      var hex := ToHex(value);
      Ok(FromHex(if |hex| % 2 == 1 then "0" + hex else hex))
  }

  function BigEndianBytesToBigint(buf: Bytes): nat {
    if buf == [] then 0 else HexToNat(HexOf(buf))
  }

  function BytesToHex(buf: Bytes): string {
    "0x" + HexOf(buf)
  }

  function HexToBytes(hex: string): Bytes {
    FromHex(if "0x" <= hex then hex[2..] else hex)
  }

  /** Win probabilities come as decimal integers or as hex; all-digit input is decimal. */
  function HexToBigEndian(hex: string): Bytes {
    if IsDecimal(hex) then BigintToBigEndianBytes(DecimalToNat(hex)).value else HexToBytes(hex)
  }

  datatype DomainExpirationParams = DomainExpirationParams(creationRound: int, creationRoundBlockHash: string)

  datatype DomainTicketParams = DomainTicketParams(
    recipient: string,
    faceValueWei: int,
    winProb: string,
    recipientRandHash: string,
    seed: string,
    expirationBlock: int,
    expirationParams: DomainExpirationParams)

  function DomainTicketParamsToWire(t: DomainTicketParams): Result<TicketParams, ConvertError> {
    var faceValue :- BigintToBigEndianBytes(t.faceValueWei);
    var expirationBlock :- BigintToBigEndianBytes(t.expirationBlock);
    Ok(TicketParams(
         HexToBytes(t.recipient), faceValue, HexToBigEndian(t.winProb), HexToBytes(t.recipientRandHash),
         HexToBytes(t.seed), expirationBlock,
         Some(TicketExpirationParams(
                t.expirationParams.creationRound, HexToBytes(t.expirationParams.creationRoundBlockHash)))))
  }

  function WireTicketParamsToDomain(w: TicketParams): DomainTicketParams {
    DomainTicketParams(
      BytesToHex(w.recipient), BigEndianBytesToBigint(w.faceValue), BytesToHex(w.winProb),
      BytesToHex(w.recipientRandHash), BytesToHex(w.seed), BigEndianBytesToBigint(w.expirationBlock),
      match w.expirationParams
      case None => DomainExpirationParams(0, "0x")
      case Some(e) => DomainExpirationParams(e.creationRound, BytesToHex(e.creationRoundBlockHash)))
  }

  // ----------------------------------------------------------------------------------------------
  // Big-endian integers
  // ----------------------------------------------------------------------------------------------

  /** Base-256 digits, most significant first, without leading zeros. */
  function BigEndian(n: nat): Bytes {
    if n == 0 then [] else BigEndian(n / 256) + [n % 256]
  }

  /** The number a byte string stands for in base 256. */
  function ValueOf(b: Bytes): nat {
    if b == [] then 0 else 256 * ValueOf(b[..|b| - 1]) + b[|b| - 1]
  }

  predicate Minimal(b: Bytes) {
    b == [] || b[0] != 0
  }

  lemma {:induction false} FromHexAppend(a: string, b: string)
    requires |a| % 2 == 0 && AllHex(a)
    ensures FromHex(a + b) == FromHex(a) + FromHex(b)
    decreases a
  {
    if a == "" {
      assert a + b == b;
    } else {
      assert (a + b)[0] == a[0] && (a + b)[1] == a[1] && (a + b)[2..] == a[2..] + b;
      FromHexAppend(a[2..], b);
    }
  }

  function Padded(hex: string): string {
    if |hex| % 2 == 1 then "0" + hex else hex
  }

  lemma PaddedByte(n: nat)
    requires 0 < n < 256
    ensures FromHex(Padded(ToHex(n))) == BigEndian(n) == [n]
    ensures AllHex(Padded(ToHex(n))) && |Padded(ToHex(n))| % 2 == 0
  {
    assert BigEndian(n / 256) == [];
    assert HexDigit(0) == '0';
    assert n < 16 ==> n / 16 == 0 && n % 16 == n;
    var pair := [HexDigit(n / 16), HexDigit(n % 16)];
    PairIsByte(n);
    hide HexDigit, HexValue, FromHex, IsHexDigit;
    if n < 16 {
      assert ToHex(n) == [HexDigit(n)];
      assert Padded(ToHex(n)) == pair;
    } else {
      assert ToHex(n / 16) == [HexDigit(n / 16)];
      assert ToHex(n) == pair;
    }
  }

  lemma ToHexPair(n: nat)
    requires n >= 256
    ensures ToHex(n) == ToHex(n / 256) + [HexDigit(n % 256 / 16), HexDigit(n % 256 % 16)]
  {
    assert n / 16 / 16 == n / 256 && n / 16 % 16 == n % 256 / 16 && n % 16 == n % 256 % 16;
    assert ToHex(n / 16) == ToHex(n / 256) + [HexDigit(n / 16 % 16)];
    assert ToHex(n) == ToHex(n / 16) + [HexDigit(n % 16)];
  }

  lemma PairIsByte(b: Byte)
    ensures FromHex([HexDigit(b / 16), HexDigit(b % 16)]) == [b]
  {
    hide HexDigit, HexValue;
    assert [HexDigit(b / 16), HexDigit(b % 16)][2..] == [];
  }

  /** The route over hex digits and the odd-length pad gives the base-256 digits. */
  lemma {:induction false} PaddedHexIsBigEndian(n: nat)
    requires n > 0
    ensures |Padded(ToHex(n))| % 2 == 0 && AllHex(Padded(ToHex(n)))
    ensures FromHex(Padded(ToHex(n))) == BigEndian(n)
    decreases n
  {
    hide HexDigit, HexValue, ToHex, FromHex;
    if n < 256 {
      PaddedByte(n);
    } else {
      var high, pair := ToHex(n / 256), [HexDigit(n % 256 / 16), HexDigit(n % 256 % 16)];
      ToHexPair(n);
      PaddedHexIsBigEndian(n / 256);
      assert Padded(ToHex(n)) == Padded(high) + pair;
      FromHexAppend(Padded(high), pair);
      PairIsByte(n % 256);
    }
  }

  lemma BigintBytesAreBigEndian(n: nat)
    ensures BigintToBigEndianBytes(n) == Ok(BigEndian(n))
  {
    if n > 0 {
      PaddedHexIsBigEndian(n);
    }
  }

  lemma {:induction false} HexOfSnoc(b: Bytes, last: Byte)
    ensures HexOf(b + [last]) == HexOf(b) + [HexDigit(last / 16), HexDigit(last % 16)]
  {
    if b == [] {
      assert b + [last] == [last];
    } else {
      assert (b + [last])[0] == b[0] && (b + [last])[1..] == b[1..] + [last];
      HexOfSnoc(b[1..], last);
    }
  }

  lemma {:induction false} BytesValueIsValueOf(b: Bytes)
    ensures BigEndianBytesToBigint(b) == ValueOf(b)
    decreases |b|
  {
    hide HexDigit, HexValue;
    if b != [] {
      var init, last := b[..|b| - 1], b[|b| - 1];
      assert b == init + [last];
      HexOfSnoc(init, last);
      BytesValueIsValueOf(init);
      var s := HexOf(init);
      assert HexOf(b)[..|HexOf(b)| - 1] == s + [HexDigit(last / 16)];
      assert (s + [HexDigit(last / 16)])[..|s|] == s;
      assert HexToNat(HexOf(b)) == 16 * (16 * HexToNat(s) + last / 16) + last % 16;
    }
  }

  lemma {:induction false} ValueOfBigEndian(n: nat)
    ensures ValueOf(BigEndian(n)) == n && Minimal(BigEndian(n))
    decreases n
  {
    if n > 0 {
      ValueOfBigEndian(n / 256);
      assert BigEndian(n)[..|BigEndian(n)| - 1] == BigEndian(n / 256);
    }
  }

  lemma ValueOfSnoc(init: Bytes, last: Byte)
    ensures ValueOf(init + [last]) == 256 * ValueOf(init) + last
  {
    assert (init + [last])[..|init|] == init;
  }

  lemma BigEndianSnoc(high: nat, low: Byte)
    requires high > 0 || low > 0
    ensures BigEndian(256 * high + low) == BigEndian(high) + [low]
  {
    assert (256 * high + low) / 256 == high && (256 * high + low) % 256 == low;
  }

  lemma {:induction false} BigEndianOfValue(b: Bytes)
    requires Minimal(b)
    ensures BigEndian(ValueOf(b)) == b
    ensures b != [] ==> ValueOf(b) > 0
    decreases |b|
  {
    if b != [] {
      var init, last := b[..|b| - 1], b[|b| - 1];
      assert b == init + [last];
      ValueOfSnoc(init, last);
      hide ValueOf, BigEndian;
      BigEndianOfValue(init);
      BigEndianSnoc(ValueOf(init), last);
      if init == [] {
        NoBytes();
      }
    }
  }

  lemma NoBytes()
    ensures ValueOf([]) == 0 && BigEndian(0) == []
  {
  }

  /** Every non-negative bigint survives the trip to bytes and back, and its bytes have no leading zero. */
  lemma BigintRoundTrip(n: nat)
    ensures BigintToBigEndianBytes(n).Ok?
    ensures var b := BigintToBigEndianBytes(n).value; BigEndianBytesToBigint(b) == n && Minimal(b)
  {
    BigintBytesAreBigEndian(n);
    ValueOfBigEndian(n);
    BytesValueIsValueOf(BigEndian(n));
  }

  /** Bytes survive the trip to a bigint and back exactly when they have no leading zero. */
  lemma BytesRoundTrip(b: Bytes)
    ensures BigintToBigEndianBytes(BigEndianBytesToBigint(b)) == Ok(b) <==> Minimal(b)
  {
    BytesValueIsValueOf(b);
    BigintBytesAreBigEndian(ValueOf(b));
    ValueOfBigEndian(ValueOf(b));
    if Minimal(b) {
      BigEndianOfValue(b);
    }
  }

  function Pow256(k: nat): (p: nat)
    ensures p >= 1
  {
    if k == 0 then 1 else 256 * Pow256(k - 1)
  }

  /** The most significant byte comes first: byte `i` of `len` is the digit of 256 to the power `len - 1 - i`. */
  lemma {:induction false} BigEndianDigits(n: nat, i: nat)
    requires i < |BigEndian(n)|
    ensures BigEndian(n)[i] == n / Pow256(|BigEndian(n)| - 1 - i) % 256
    decreases n
  {
    var b := BigEndian(n);
    if i < |b| - 1 {
      BigEndianDigits(n / 256, i);
      DivideTwice(n, 256, Pow256(|b| - 2 - i));
    }
  }

  // ----------------------------------------------------------------------------------------------
  // Hex strings
  // ----------------------------------------------------------------------------------------------

  /** The character writes the number in the usual hex alphabet, in either case. */
  predicate IsNibble(c: char, v: nat) {
    v < 16 && (c == "0123456789abcdef"[v] || c == "0123456789ABCDEF"[v])
  }

  lemma HexAlphabet(c: char)
    ensures IsHexDigit(c) <==> exists v :: IsNibble(c, v)
    ensures IsHexDigit(c) ==> IsNibble(c, HexValue(c))
  {
    if '0' <= c <= '9' {
      assert IsNibble(c, c as int - '0' as int);
    } else if 'a' <= c <= 'f' {
      assert IsNibble(c, c as int - 'a' as int + 10);
    } else if 'A' <= c <= 'F' {
      assert IsNibble(c, c as int - 'A' as int + 10);
    }
  }

  /** `digits` writes `b`, two digits for each byte, the high one first. */
  ghost predicate Writes(digits: string, b: Bytes) {
    && |digits| == 2 * |b|
    && forall i | 0 <= i < |b| :: IsNibble(digits[2 * i], b[i] / 16) && IsNibble(digits[2 * i + 1], b[i] % 16)
  }

  /** A hex string, with its `0x`, writes `b`. */
  ghost predicate HexWrites(h: string, b: Bytes) {
    "0x" <= h && Writes(h[2..], b)
  }

  lemma {:induction false} FromHexIsWritten(s: string)
    requires |s| % 2 == 0 && AllHex(s)
    ensures Writes(s, FromHex(s))
    decreases s
  {
    if s != "" {
      FromHexIsWritten(s[2..]);
      HexAlphabet(s[0]);
      HexAlphabet(s[1]);
      FirstByte(s);
      hide FromHex, HexValue, IsHexDigit, IsNibble, Writes;
      WritesOneMore(s, FromHex(s));
    }
  }

  lemma WritesOneMore(s: string, b: Bytes)
    requires |s| >= 2 && b != [] && Writes(s[2..], b[1..])
    requires IsNibble(s[0], b[0] / 16) && IsNibble(s[1], b[0] % 16)
    ensures Writes(s, b)
  {
    hide IsNibble;
    forall i | 0 < i < |b|
      ensures IsNibble(s[2 * i], b[i] / 16) && IsNibble(s[2 * i + 1], b[i] % 16)
    {
      assert b[i] == b[1..][i - 1] && s[2 * i] == s[2..][2 * (i - 1)] && s[2 * i + 1] == s[2..][2 * (i - 1) + 1];
    }
  }

  lemma FirstByte(s: string)
    requires |s| >= 2 && IsHexDigit(s[0]) && IsHexDigit(s[1])
    ensures var b := FromHex(s);
      b != [] && b[0] / 16 == HexValue(s[0]) && b[0] % 16 == HexValue(s[1]) && b[1..] == FromHex(s[2..])
  {
    hide HexValue;
  }

  /** Of any other string, what is written before the first pair that is not two hex digits is read, and no more. */
  lemma {:induction false} FromHexStops(s: string)
    ensures var n := 2 * |FromHex(s)|;
      && n <= |s| && Writes(s[..n], FromHex(s))
      && (n + 1 < |s| ==> !IsHexDigit(s[n]) || !IsHexDigit(s[n + 1]))
    decreases s
  {
    if |s| >= 2 && IsHexDigit(s[0]) && IsHexDigit(s[1]) {
      FromHexStops(s[2..]);
      HexAlphabet(s[0]);
      HexAlphabet(s[1]);
      FirstByte(s);
      hide FromHex, HexValue, IsHexDigit, IsNibble, Writes;
      var b, n := FromHex(s), 2 * |FromHex(s)|;
      assert s[..n][2..] == s[2..][..n - 2];
      WritesOneMore(s[..n], b);
    }
  }

  /** A hex string becomes the bytes that it writes, with or without its `0x`. */
  lemma HexToBytesIsWritten(h: string)
    requires |h| % 2 == 0 && AllHex(h)
    ensures HexWrites("0x" + h, HexToBytes("0x" + h)) && HexToBytes(h) == HexToBytes("0x" + h)
  {
    FromHexIsWritten(h);
    assert ("0x" + h)[2..] == h;
    assert |h| >= 2 ==> IsHexDigit(h[1]);
  }

  /** Bytes become the hex string, in lower case, that writes them. */
  lemma {:induction false} HexOfWrites(b: Bytes)
    ensures Writes(HexOf(b), b) && LowerHex(HexOf(b)) == HexOf(b)
  {
    hide IsHexDigit;
    var s := HexOf(b);
    FromHexOf(b);
    FromHexIsWritten(s);
    HexOfIsLower(b);
  }

  lemma {:induction false} HexOfIsLower(b: Bytes)
    ensures forall c | c in HexOf(b) :: LowerDigit(c) == c
  {
    hide HexDigit, HexValue;
    if b != [] {
      HexOfIsLower(b[1..]);
    }
  }


  /** `0x` and an even number of hex digits. */
  predicate Is0xHex(h: string) {
    "0x" <= h && |h| % 2 == 0 && AllHex(h[2..])
  }

  lemma {:induction false} FromHexOf(b: Bytes)
    ensures FromHex(HexOf(b)) == b
  {
    hide HexDigit, HexValue;
    if b != [] {
      FromHexOf(b[1..]);
      assert HexOf(b)[2..] == HexOf(b[1..]);
    }
  }

  lemma {:induction false} FromHexLength(s: string)
    ensures 2 * |FromHex(s)| <= |s|
    ensures 2 * |FromHex(s)| == |s| <==> |s| % 2 == 0 && AllHex(s)
    decreases s
  {
    if |s| >= 2 {
      FromHexLength(s[2..]);
      assert s == s[..2] + s[2..];
    }
  }

  lemma {:induction false} HexOfFromHex(s: string)
    requires |s| % 2 == 0 && AllHex(s)
    ensures HexOf(FromHex(s)) == LowerHex(s)
    decreases s
  {
    hide HexDigit;
    if s != "" {
      HexOfFromHex(s[2..]);
      assert LowerHex(s) == [LowerDigit(s[0]), LowerDigit(s[1])] + LowerHex(s[2..]);
      var first := 16 * HexValue(s[0]) + HexValue(s[1]);
      assert FromHex(s)[0] == first && FromHex(s)[1..] == FromHex(s[2..]);
      assert first / 16 == HexValue(s[0]) && first % 16 == HexValue(s[1]);
    }
  }

  lemma BytesToHexRoundTrip(b: Bytes)
    ensures HexToBytes(BytesToHex(b)) == b && Is0xHex(BytesToHex(b))
  {
    FromHexOf(b);
    assert BytesToHex(b)[2..] == HexOf(b);
  }

  lemma LoweringKeepsPrefix(h: string)
    ensures "0x" <= LowerHex(h) ==> "0x" <= h
  {
    if "0x" <= LowerHex(h) {
      assert LowerDigit(h[0]) == LowerHex(h)[0] == '0' && LowerDigit(h[1]) == LowerHex(h)[1] == 'x';
      assert h[..2] == "0x";
    }
  }

  /** A hex string survives the trip to bytes and back, up to the case of its digits, exactly when well formed. */
  lemma HexRoundTrip(h: string)
    ensures BytesToHex(HexToBytes(h)) == LowerHex(h) <==> Is0xHex(h)
  {
    if "0x" <= h {
      var digits := h[2..];
      assert h == "0x" + digits;
      assert LowerHex(h) == "0x" + LowerHex(digits);
      FromHexLength(digits);
      if Is0xHex(h) {
        HexOfFromHex(digits);
      } else {
        assert |BytesToHex(HexToBytes(h))| < |LowerHex(h)|;
      }
    } else {
      LoweringKeepsPrefix(h);
    }
  }

  // ----------------------------------------------------------------------------------------------
  // Ticket parameters end to end
  // ----------------------------------------------------------------------------------------------

  /** The shape the domain schema asks for, with win probabilities in hex. */
  predicate WellFormedHex(t: DomainTicketParams) {
    && Is0xHex(t.recipient) && Is0xHex(t.winProb) && Is0xHex(t.recipientRandHash) && Is0xHex(t.seed)
    && Is0xHex(t.expirationParams.creationRoundBlockHash)
  }

  function Lowered(t: DomainTicketParams): DomainTicketParams {
    DomainTicketParams(
      LowerHex(t.recipient), t.faceValueWei, LowerHex(t.winProb), LowerHex(t.recipientRandHash), LowerHex(t.seed),
      t.expirationBlock,
      DomainExpirationParams(
        t.expirationParams.creationRound, LowerHex(t.expirationParams.creationRoundBlockHash)))
  }

  /** A win probability given as a decimal integer, with or without leading zeros, goes out as that integer in base
      256; one given in hex as the bytes written. */
  lemma WinProbBytes(zeros: nat, n: nat, digits: string)
    ensures HexToBigEndian(Zeros(zeros) + Decimal(n)) == BigEndian(n)
    ensures |digits| % 2 == 0 && AllHex(digits) ==> HexWrites("0x" + digits, HexToBigEndian("0x" + digits))
  {
    ReadsPrinted(zeros, n);
    BigintBytesAreBigEndian(n);
    if |digits| % 2 == 0 && AllHex(digits) {
      HexToBytesIsWritten(digits);
      assert ("0x" + digits)[1] == 'x';
    }
  }

  /** For example. */
  lemma HundredIsOneByte()
    ensures HexToBigEndian("100") == [0x64]
  {
    assert "100"[..2] == "10" && "10"[..1] == "1" && "1"[..0] == "";
    assert DecimalToNat("1") == 1 && DecimalToNat("10") == 10 && DecimalToNat("100") == 100;
    BigintBytesAreBigEndian(100);
    hide BigintToBigEndianBytes;
    assert BigEndian(100 / 256) == [];
  }

  /** Each wire field carries its own domain field: hex fields the bytes they write, integers base 256. */
  lemma WireFields(t: DomainTicketParams)
    requires t.faceValueWei >= 0 && t.expirationBlock >= 0
    ensures var w := DomainTicketParamsToWire(t).value;
      && w.faceValue == BigEndian(t.faceValueWei) && w.expirationBlock == BigEndian(t.expirationBlock)
      && (Is0xHex(t.recipient) ==> HexWrites(t.recipient, w.recipient))
      && (Is0xHex(t.winProb) ==> HexWrites(t.winProb, w.winProb))
      && (IsDecimal(t.winProb) ==> w.winProb == BigEndian(DecimalToNat(t.winProb)))
      && (Is0xHex(t.recipientRandHash) ==> HexWrites(t.recipientRandHash, w.recipientRandHash))
      && (Is0xHex(t.seed) ==> HexWrites(t.seed, w.seed))
      && w.expirationParams.Some?
      && w.expirationParams.value.creationRound == t.expirationParams.creationRound
      && (Is0xHex(t.expirationParams.creationRoundBlockHash) ==>
            HexWrites(t.expirationParams.creationRoundBlockHash, w.expirationParams.value.creationRoundBlockHash))
  {
    BigintBytesAreBigEndian(t.faceValueWei);
    BigintBytesAreBigEndian(t.expirationBlock);
    if IsDecimal(t.winProb) {
      BigintBytesAreBigEndian(DecimalToNat(t.winProb));
    }
    hide BigintToBigEndianBytes, HexToBytes, HexWrites, DecimalToNat, BigEndian;
    WritesWhatIsWellFormed(t.recipient);
    WritesWhatIsWellFormed(t.winProb);
    WritesWhatIsWellFormed(t.recipientRandHash);
    WritesWhatIsWellFormed(t.seed);
    WritesWhatIsWellFormed(t.expirationParams.creationRoundBlockHash);
    assert Is0xHex(t.winProb) ==> t.winProb[1] == 'x';
  }

  lemma WritesWhatIsWellFormed(h: string)
    ensures Is0xHex(h) ==> HexWrites(h, HexToBytes(h))
  {
    if Is0xHex(h) {
      assert h == "0x" + h[2..];
      HexToBytesIsWritten(h[2..]);
    }
  }

  /** Each domain field comes from its own wire field; absent expiration params become round 0 and no hash. */
  lemma DomainFields(w: TicketParams)
    ensures var t := WireTicketParamsToDomain(w);
      && t.faceValueWei == ValueOf(w.faceValue) && t.expirationBlock == ValueOf(w.expirationBlock)
      && HexWrites(t.recipient, w.recipient) && HexWrites(t.winProb, w.winProb)
      && HexWrites(t.recipientRandHash, w.recipientRandHash) && HexWrites(t.seed, w.seed)
      && (w.expirationParams.None? ==> t.expirationParams == DomainExpirationParams(0, "0x"))
      && (w.expirationParams.Some? ==>
            && t.expirationParams.creationRound == w.expirationParams.value.creationRound
            && HexWrites(t.expirationParams.creationRoundBlockHash, w.expirationParams.value.creationRoundBlockHash))
  {
    BytesValueIsValueOf(w.faceValue);
    BytesValueIsValueOf(w.expirationBlock);
    BytesToHexWrites(w.recipient);
    BytesToHexWrites(w.winProb);
    BytesToHexWrites(w.recipientRandHash);
    BytesToHexWrites(w.seed);
    if w.expirationParams.Some? {
      BytesToHexWrites(w.expirationParams.value.creationRoundBlockHash);
    }
  }

  lemma BytesToHexWrites(b: Bytes)
    ensures HexWrites(BytesToHex(b), b)
  {
    HexOfWrites(b);
    assert BytesToHex(b)[2..] == HexOf(b);
  }

  /** A decimal win probability never comes back as it was. */
  lemma WinProbRoundTrip(h: string)
    ensures BytesToHex(HexToBigEndian(h)) == LowerHex(h) <==> Is0xHex(h)
  {
    if IsDecimal(h) {
      if |h| >= 2 {
        assert LowerHex(h)[1] == h[1] != 'x';
      }
      assert BytesToHex(HexToBigEndian(h))[1] == 'x';
    } else {
      HexRoundTrip(h);
    }
  }

  /** To the wire form and back is the identity up to hex case exactly for well-formed hex fields. */
  lemma DomainRoundTrip(t: DomainTicketParams)
    requires t.faceValueWei >= 0 && t.expirationBlock >= 0
    ensures DomainTicketParamsToWire(t).Ok?
    ensures WireTicketParamsToDomain(DomainTicketParamsToWire(t).value) == Lowered(t) <==> WellFormedHex(t)
  {
    BigintRoundTrip(t.faceValueWei);
    BigintRoundTrip(t.expirationBlock);
    HexRoundTrip(t.recipient);
    WinProbRoundTrip(t.winProb);
    HexRoundTrip(t.recipientRandHash);
    HexRoundTrip(t.seed);
    HexRoundTrip(t.expirationParams.creationRoundBlockHash);
  }

  /** Converting throws exactly on a negative amount or block. */
  lemma DomainToWireThrows(t: DomainTicketParams)
    ensures DomainTicketParamsToWire(t).Err? <==> t.faceValueWei < 0 || t.expirationBlock < 0
  {
  }

  /** To the domain form and back is the identity exactly for minimal integers and present expiration params. */
  lemma WireRoundTrip(w: TicketParams)
    ensures DomainTicketParamsToWire(WireTicketParamsToDomain(w)) == Ok(w)
      <==> Minimal(w.faceValue) && Minimal(w.expirationBlock) && w.expirationParams.Some?
  {
    BytesRoundTrip(w.faceValue);
    BytesRoundTrip(w.expirationBlock);
    BytesToHexRoundTrip(w.recipient);
    BytesToHexRoundTrip(w.winProb);
    BytesToHexRoundTrip(w.recipientRandHash);
    BytesToHexRoundTrip(w.seed);
    if w.expirationParams.Some? {
      BytesToHexRoundTrip(w.expirationParams.value.creationRoundBlockHash);
    }
    assert BytesToHex(w.winProb)[1] == 'x';
  }

  /** Domain, wire, bytes, wire, domain: the ticket parameters arrive as they were sent, in lower-case hex. */
  lemma EndToEnd(t: DomainTicketParams)
    requires t.faceValueWei >= 0 && t.expirationBlock >= 0 && WellFormedHex(t)
    requires InRange(ParamsM(DomainTicketParamsToWire(t).value))
    ensures var bytes := Encode(ParamsM(DomainTicketParamsToWire(t).value));
      var back := Decode(ParamsM(BASE_TICKET_PARAMS), bytes);
      back.Done? && back.pos == |bytes| && WireTicketParamsToDomain(back.value.params) == Lowered(t)
  {
    hide DecodeFields, Encode;
    DomainRoundTrip(t);
    RoundTrip(ParamsM(DomainTicketParamsToWire(t).value));
  }
}
