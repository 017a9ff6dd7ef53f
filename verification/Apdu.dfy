/** The command APDU decoder (ISO/IEC 7816-4:2013 section 5.3.2) and the encoding it inverts. */
module Apdu {
  import opened Octets

  const ACCEPTED := 0
  const SW_WRONG_LENGTH := 0x6700
  const SW_COND_USE_NOT_SATISFIED := 0x6985

  /** The cases of command APDUs, short and extended; `Case4E3` is 4E with a third Le byte. */
  datatype Form = Case1 | Case2S | Case3S | Case4S | Case2E | Case3E | Case4E | Case4E3

  datatype Command = Command(cla: u8, ins: u8, p1: u8, p2: u8, form: Form, data: Bytes, le: nat)

  function Code(f: Form): u8 {
    match f
    case Case1 => 0x01
    case Case2S => 0x02
    case Case3S => 0x03
    case Case4S => 0x04
    case Case2E => 0x12
    case Case3E => 0x13
    case Case4E => 0x14
    case Case4E3 => 0x24
  }

  predicate HasData(f: Form) { f in {Case3S, Case4S, Case3E, Case4E, Case4E3} }

  predicate HasLe(f: Form) { f in {Case2S, Case4S, Case2E, Case4E, Case4E3} }

  predicate Short(f: Form) { f in {Case1, Case2S, Case3S, Case4S} }

  /** What the form can carry: an absent part is empty or 0. */
  predicate Encodable(c: Command) {
    && |c.data| <= (if !HasData(c.form) then 0 else if Short(c.form) then 0xff else 0xffff)
    && c.le <= (if !HasLe(c.form) then 0 else if Short(c.form) then 0x100 else 0x1_0000)
    && (HasLe(c.form) ==> c.le > 0)
  }

  /** As the standard has it: where there is Lc there is data. */
  predicate WellFormed(c: Command) {
    Encodable(c) && (HasData(c.form) ==> c.data != [])
  }

  /** Two bytes, most significant first; 0x10000 comes out as 0. */
  function Word(n: nat): (b: Bytes)
    requires n <= 0x1_0000
    ensures |b| == 2 && BigEndian16(b[0], b[1]) == if n == 0x1_0000 then 0 else n
  {
    if n == 0x1_0000 then [0, 0] else [n / 0x100, n % 0x100]
  }

  lemma WordOfBytes(high: u8, low: u8)
    ensures Word(BigEndian16(high, low)) == [high, low]
  {
  }

  function Body(c: Command): Bytes
    requires Encodable(c)
  {
    match c.form
    case Case1 => []
    case Case2S => [c.le % 0x100]
    case Case3S => [|c.data|] + c.data
    case Case4S => [|c.data|] + c.data + [c.le % 0x100]
    case Case2E => [0] + Word(c.le)
    case Case3E => [0] + Word(|c.data|) + c.data
    case Case4E => [0] + Word(|c.data|) + c.data + Word(c.le)
    case Case4E3 => [0] + Word(|c.data|) + c.data + [0] + Word(c.le)
  }

  function Encode(c: Command): Bytes
    requires Encodable(c)
  {
    [c.cla, c.ins, c.p1, c.p2] + Body(c)
  }

  // ----- decoding -----

  /** The decoder's struct; `at` is where the data starts, 0 for none. */
  datatype Fields = Fields(cla: u8, ins: u8, p1: u8, p2: u8, lc: u16, at: nat, le: nat, extended: bool, caseType: u8)

  datatype Result = Ok(fields: Fields) | Refused(status: int)

  /** Without the chaining bit. */
  function Unchained(cla: u8): u8 {
    if cla / 0x10 % 2 == 1 then cla - 0x10 else cla
  }

  /** The chaining bit is clear and the other bits are those of the class byte. */
  lemma UnchainedIsMasked(cla: u8)
    ensures forall k :: 0 <= k < 8 ==> Bit(Unchained(cla), k) == if k == 4 then 0 else Bit(cla, k)
  {
    forall k | 0 <= k < 8 ensures Bit(Unchained(cla), k) == if k == 4 then 0 else Bit(cla, k) {
      if k <= 4 { LowBits(cla, k); } else { HighBits(cla, k); }
    }
  }

  lemma LowBits(cla: u8, k: nat)
    requires k <= 4
    ensures Bit(Unchained(cla), k) == if k == 4 then 0 else Bit(cla, k)
  {
    var d, e := cla, Unchained(cla);
    var x := (d - e) / 0x10;
    assert e == d - 0x10 * x && e / 2 == d / 2 - 8 * x;
    assert e / 2 / 2 == d / 2 / 2 - 4 * x;
    assert e / 2 / 2 / 2 == d / 2 / 2 / 2 - 2 * x;
    assert e / 2 / 2 / 2 / 2 == d / 2 / 2 / 2 / 2 - x && d / 2 / 2 / 2 / 2 == d / 0x10;
    BitsOf(d);
    BitsOf(e);
  }

  lemma BitsOf(a: nat)
    ensures Bit(a, 0) == a % 2 && Bit(a, 1) == a / 2 % 2 && Bit(a, 2) == a / 2 / 2 % 2
    ensures Bit(a, 3) == a / 2 / 2 / 2 % 2 && Bit(a, 4) == a / 2 / 2 / 2 / 2 % 2
  {
  }

  lemma HighBits(cla: u8, k: nat)
    requires 5 <= k < 8
    ensures Bit(Unchained(cla), k) == Bit(cla, k)
  {
    assert Unchained(cla) / 0x20 == cla / 0x20;
    BitAbove(Unchained(cla), k - 5);
    BitAbove(cla, k - 5);
  }

  lemma BitAbove(a: nat, k: nat)
    ensures Bit(a, k + 5) == Bit(a / 0x20, k)
  {
    assert a / 2 / 2 / 2 / 2 / 2 == a / 0x20;
    assert Bit(a, k + 5) == Bit(a / 2, k + 4) == Bit(a / 2 / 2, k + 3) == Bit(a / 2 / 2 / 2, k + 2)
        == Bit(a / 2 / 2 / 2 / 2, k + 1) == Bit(a / 2 / 2 / 2 / 2 / 2, k);
  }

  function OrMax(le: nat, max: nat): nat {
    if le == 0 then max else le
  }

  function Found(b: Bytes, lc: u16, le: nat, extended: bool, code: u8): Result
    requires 5 <= |b|
  {
    Ok(Fields(Unchained(b[0]), b[1], b[2], b[3],
           lc, if lc == 0 then 0 else if extended then 7 else 5, le, extended, code))
  }

  /** What the first `len` bytes of the buffer are taken for. */
  function Classify(b: Bytes, len: nat): Result
    requires 5 <= |b| && len <= |b|
  {
    if b[4] == 0 && len >= 7 then ClassifyExtended(b, len) else ClassifyShort(b, len)
  }

  function ClassifyShort(b: Bytes, len: nat): Result
    requires 5 <= |b| && len <= |b|
  {
    var b0: int := b[4];
    if len == 4 then Found(b, 0, 0, false, 0x01)
    else if len == 5 then Found(b, 0, OrMax(b0, 0x100), false, 0x02)
    else if b0 != 0 && len == 5 + b0 then Found(b, b0, 0, false, 0x03)
    else if b0 != 0 && len == 6 + b0 then Found(b, b0, OrMax(b[len - 1], 0x100), false, 0x04)
    else Refused(if 5 < len < 5 + b0 then SW_WRONG_LENGTH else SW_COND_USE_NOT_SATISFIED)
  }

  function ClassifyExtended(b: Bytes, len: nat): Result
    requires 7 <= len <= |b|
  {
    var ext := BigEndian16(b[5], b[6]);
    var le := OrMax(BigEndian16(b[len - 2], b[len - 1]), 0x1_0000);
    if len < 7 + ext then Refused(SW_WRONG_LENGTH)
    else if len == 7 + ext then Found(b, ext, if len == 7 then 0x1_0000 else 0, true, 0x13)
    else if len == 9 + ext then Found(b, ext, le, true, 0x14)
    else if len == 10 + ext && b[len - 3] == 0 then Found(b, ext, le, true, 0x24)
    else Refused(SW_COND_USE_NOT_SATISFIED)
  }

  class ApduStruct {
    var cla: u8
    var ins: u8
    var p1: u8
    var p2: u8
    var lc: u16
    var at: nat
    var le: nat
    var extended: bool
    var caseType: u8

    constructor () {
    }

    ghost function Value(): Fields
      reads this
    {
      Fields(cla, ins, p1, p2, lc, at, le, extended, caseType)
    }

    /** `apdu_decode`: the tests are tried one after the other and later ones overwrite. */
    method Decode(data: Bytes, len: nat) returns (status: int)
      requires 5 <= |data| && len <= |data|
      modifies this
      ensures if status == ACCEPTED then Classify(data, len) == Ok(Value()) else Classify(data, len) == Refused(status)
    {
      cla, ins, p1, p2 := Unchained(data[0]), data[1], data[2], data[3];
      lc, at, le, extended, caseType := 0, 0, 0, false, 0;
      var b0: int := data[4];
      if len == 4 { caseType := 0x01; }
      if len == 5 { caseType, le := 0x02, OrMax(b0, 0x100); }
      if len == 5 + b0 && b0 != 0 { caseType, lc := 0x03, b0; }
      if len == 5 + b0 + 1 && b0 != 0 { caseType, lc, le := 0x04, b0, OrMax(data[len - 1], 0x100); }
      if len >= 7 && b0 == 0 {
        var extlen: int := BigEndian16(data[5], data[6]);
        if len - 7 < extlen { return SW_WRONG_LENGTH; }
        if len == 7 { caseType, extended, le := 0x12, true, OrMax(extlen, 0x1_0000); }
        if len == 7 + extlen { caseType, extended, lc := 0x13, true, extlen; }
        if len == 7 + extlen + 2 {
          caseType, extended, lc, le := 0x14, true, extlen, OrMax(BigEndian16(data[len - 2], data[len - 1]), 0x1_0000);
        }
        if len == 7 + extlen + 3 && data[len - 3] == 0 {
          caseType, extended, lc, le := 0x24, true, extlen, OrMax(BigEndian16(data[len - 2], data[len - 1]), 0x1_0000);
        }
      } else if len > 5 && len - 5 < b0 {
        return SW_WRONG_LENGTH;
      }
      if caseType == 0 { return SW_COND_USE_NOT_SATISFIED; }
      if lc != 0 { at := if extended then 7 else 5; }
      return ACCEPTED;
    }
  }

  /** Refused for its length is exactly what states more data than there is; for what else is refused
      there is no case. */
  lemma RefusalIsExact(b: Bytes, len: nat)
    requires 5 <= |b| && len <= |b| && Classify(b, len).Refused?
    ensures var lacks := if b[4] == 0 && len >= 7 then len - 7 < BigEndian16(b[5], b[6]) else 5 < len < 5 + b[4] as int;
            Classify(b, len).status == if lacks then 0x6700 else 0x6985
  {
  }

  // ----- what decoding promises -----

  /** The data that the struct points at. */
  function Window(b: Bytes, f: Fields): Bytes
    requires f.at + f.lc <= |b|
  {
    b[f.at..f.at + f.lc]
  }

  /** Whatever is accepted, the data lies inside the input. */
  lemma WindowIsInside(b: Bytes, len: nat)
    requires 5 <= |b| && len <= |b|
    ensures Classify(b, len).Ok? ==> var f := Classify(b, len).fields; f.at + f.lc <= len && (f.lc > 0 ==> f.at >= 5)
  {
  }

  /** Bytes behind the input do not matter. */
  lemma RestIsIgnored(b: Bytes, c: Bytes, len: nat)
    requires 5 <= |b| && len <= |b| && 5 <= |c| && len <= |c| && b[..len] == c[..len]
    ensures Classify(b, len) == Classify(c, len)
  {
    forall i | 0 <= i < len ensures b[i] == c[i] { assert b[..len][i] == c[..len][i]; }
  }

  function Ended(c: Command): Fields
    requires |c.data| < 0x1_0000
  {
    Fields(Unchained(c.cla), c.ins, c.p1, c.p2, |c.data|, if c.data == [] then 0 else if Short(c.form) then 5 else 7,
           c.le, !Short(c.form), Code(c.form))
  }

  /** Where the parts of an encoding are; `rest` is whatever the buffer holds behind it. */
  lemma ShortLayout(c: Command, rest: Bytes)
    requires WellFormed(c) && Short(c.form)
    ensures var b, n := Encode(c) + rest, |Encode(c)|;
            && n >= 4 && b[0] == c.cla && b[1] == c.ins && b[2] == c.p1 && b[3] == c.p2
            && (HasData(c.form) ==> n >= 5 + |c.data| && b[4] == |c.data| && b[5..5 + |c.data|] == c.data)
            && (HasLe(c.form) ==> n > 4 && b[n - 1] == c.le % 0x100)
            && n == 4 + (if HasData(c.form) then 1 + |c.data| else 0) + if HasLe(c.form) then 1 else 0
  {
  }

  lemma ExtendedLayout(c: Command, rest: Bytes)
    requires WellFormed(c) && !Short(c.form)
    ensures var b, n := Encode(c) + rest, |Encode(c)|;
            && n >= 7 && b[0] == c.cla && b[1] == c.ins && b[2] == c.p1 && b[3] == c.p2 && b[4] == 0
            && b[5..7] == Word(if HasData(c.form) then |c.data| else c.le)
            && (HasLe(c.form) ==> b[n - 2..n] == Word(c.le))
            && (c.form == Case4E3 ==> b[n - 3] == 0)
            && n == 7 + |c.data| + (match c.form case Case4E => 2 case Case4E3 => 3 case _ => 0)
            && b[7..7 + |c.data|] == c.data
  {
    hide Word, Encode;
    ExtendedParts(c);
    var w := if HasData(c.form) then Word(|c.data|) else Word(c.le);
    var tail := match c.form case Case4E => Word(c.le) case Case4E3 => [0] + Word(c.le) case _ => [];
    PartsAt([c.cla, c.ins, c.p1, c.p2, 0], w, c.data, tail, rest);
    var b, n := Encode(c) + rest, |Encode(c)|;
    assert b[n - |tail|..n] == tail;
    if c.form == Case4E3 { assert b[n - 3..n][0] == b[n - 3] && b[n - 2..n] == b[n - 3..n][1..]; }
  }

  lemma PartsAt(head: Bytes, word: Bytes, data: Bytes, tail: Bytes, rest: Bytes)
    requires |head| == 5 && |word| == 2
    ensures var b := head + word + data + tail + rest;
            && (forall i :: 0 <= i < 5 ==> b[i] == head[i])
            && b[5..7] == word && b[7..7 + |data|] == data && b[7 + |data|..7 + |data| + |tail|] == tail
  {
  }

  lemma ExtendedParts(c: Command)
    requires Encodable(c) && !Short(c.form)
    ensures var w := if HasData(c.form) then Word(|c.data|) else Word(c.le);
            var tail := match c.form case Case4E => Word(c.le) case Case4E3 => [0] + Word(c.le) case _ => [];
            Encode(c) == [c.cla, c.ins, c.p1, c.p2, 0] + w + c.data + tail
  {
    hide Word;
  }

  lemma DecodeInvertsShort(c: Command, rest: Bytes)
    requires WellFormed(c) && Short(c.form) && |Encode(c)| + |rest| >= 5
    ensures Classify(Encode(c) + rest, |Encode(c)|) == Ok(Ended(c))
    ensures HasData(c.form) ==> Window(Encode(c) + rest, Ended(c)) == c.data
  {
    hide Encode;
    ShortLayout(c, rest);
  }

  lemma DecodeInvertsExtended(c: Command, rest: Bytes)
    requires WellFormed(c) && c.form in {Case3E, Case4E, Case4E3}
    ensures Classify(Encode(c) + rest, |Encode(c)|) == Ok(Ended(c))
    ensures Window(Encode(c) + rest, Ended(c)) == c.data
  {
    hide Encode, Word;
    ExtendedLayout(c, rest);
    var b, n := Encode(c) + rest, |Encode(c)|;
    assert b[5..7][0] == b[5] && b[5..7][1] == b[6];
    if HasLe(c.form) { assert b[n - 2..n][0] == b[n - 2] && b[n - 2..n][1] == b[n - 1]; }
  }

  /** Case 2E is refused unless Le is the maximum, and is then taken for case 3E without data. */
  lemma Case2EIsMisread(c: Command, rest: Bytes)
    requires WellFormed(c) && c.form == Case2E
    ensures var f := Ended(c);
            Classify(Encode(c) + rest, |Encode(c)|)
            == if c.le == 0x1_0000 then Ok(Fields(f.cla, f.ins, f.p1, f.p2, f.lc, f.at, f.le, f.extended, 0x13))
               else Refused(SW_WRONG_LENGTH)
  {
    hide Encode, Word;
    ExtendedLayout(c, rest);
    var b := Encode(c) + rest;
    assert b[5..7][0] == b[5] && b[5..7][1] == b[6];
  }

  /** Decoding inverts encoding exactly for the forms other than 2E. */
  lemma DecodeInvertsEncode(c: Command, rest: Bytes)
    requires WellFormed(c) && |Encode(c)| + |rest| >= 5
    ensures Classify(Encode(c) + rest, |Encode(c)|) == Ok(Ended(c)) <==> c.form != Case2E
    ensures HasData(c.form) ==> Window(Encode(c) + rest, Ended(c)) == c.data
  {
    hide Classify, Encode;
    if c.form == Case2E {
      Case2EIsMisread(c, rest);
    } else if Short(c.form) {
      DecodeInvertsShort(c, rest);
    } else {
      DecodeInvertsExtended(c, rest);
    }
  }

  function FormOf(code: u8): Form {
    match code
    case 0x01 => Case1
    case 0x02 => Case2S
    case 0x03 => Case3S
    case 0x04 => Case4S
    case 0x13 => Case3E
    case 0x14 => Case4E
    case _ => Case4E3
  }

  /** The command that an accepted input is taken for, with the class byte as it came. */
  function Taken(b: Bytes, f: Fields): Command
    requires 1 <= |b| && f.at + f.lc <= |b|
  {
    Command(b[0], f.ins, f.p1, f.p2, FormOf(f.caseType), Window(b, f), if HasLe(FormOf(f.caseType)) then f.le else 0)
  }

  /** Nothing is accepted but encodings: what is accepted is the encoding of what it is taken for,
      whatever the buffer holds behind it. */
  lemma EncodeInvertsDecode(b: Bytes, len: nat)
    requires 5 <= |b| && len <= |b| && Classify(b, len).Ok?
    ensures var (f, used) := (Classify(b, len).fields, b[..len]);
            && len >= 4 && f.at + f.lc <= len && Encodable(Taken(used, f)) && Encode(Taken(used, f)) == used
            && Code(FormOf(f.caseType)) == f.caseType
  {
    hide Word, ClassifyExtended, ClassifyShort, Encode, Taken, Encodable, Code, FormOf;
    if len < 5 {
      AcceptedCase1(b, len);
    } else {
      RestIsIgnored(b, b[..len], len);
      if b[4] == 0 && len >= 7 { AcceptedExtended(b[..len]); } else { AcceptedShort(b[..len]); }
    }
  }

  lemma AcceptedCase1(b: Bytes, len: nat)
    requires 5 <= |b| && len < 5 && ClassifyShort(b, len).Ok?
    ensures var f := ClassifyShort(b, len).fields;
            && len == 4 && f.at + f.lc <= len && Encodable(Taken(b[..4], f)) && Encode(Taken(b[..4], f)) == b[..4]
            && Code(FormOf(f.caseType)) == f.caseType
  {
    assert b[..4] == [b[0], b[1], b[2], b[3]];
  }

  lemma AcceptedShort(b: Bytes)
    requires 5 <= |b| && ClassifyShort(b, |b|).Ok?
    ensures var f := ClassifyShort(b, |b|).fields;
            && f.at + f.lc <= |b| && Encodable(Taken(b, f)) && Encode(Taken(b, f)) == b
            && Code(FormOf(f.caseType)) == f.caseType
  {
    hide Unchained, Encode, OrMax;
    if |b| == 5 { AcceptedCase2S(b); } else { AcceptedWithData(b); }
  }

  lemma AcceptedCase2S(b: Bytes)
    requires |b| == 5 && ClassifyShort(b, 5).Ok?
    ensures var f := ClassifyShort(b, 5).fields;
            && f.lc == f.at == 0 && Encodable(Taken(b, f)) && Encode(Taken(b, f)) == b
            && Code(FormOf(f.caseType)) == f.caseType
  {
    hide Unchained, Encode;
    var c := Taken(b, ClassifyShort(b, 5).fields);
    ShortParts(c);
    assert b == [c.cla, c.ins, c.p1, c.p2] + [b[4]];
  }

  lemma AcceptedWithData(b: Bytes)
    requires 5 < |b| && ClassifyShort(b, |b|).Ok?
    ensures var f := ClassifyShort(b, |b|).fields;
            && f.at + f.lc <= |b| && Encodable(Taken(b, f)) && Encode(Taken(b, f)) == b
            && Code(FormOf(f.caseType)) == f.caseType
  {
    hide Unchained, Encode;
    var f, n := ClassifyShort(b, |b|).fields, |b|;
    var c := Taken(b, f);
    ShortParts(c);
    HeadAndData(b, f.lc);
    assert c.data == b[5..5 + f.lc];
    if c.form == Case4S { assert b[5 + f.lc..] == [b[n - 1]]; } else { assert b[5 + f.lc..] == []; }
  }

  lemma HeadAndData(b: Bytes, lc: nat)
    requires 5 + lc <= |b|
    ensures b == [b[0], b[1], b[2], b[3]] + ([b[4]] + b[5..5 + lc] + b[5 + lc..])
  {
  }

  lemma ShortParts(c: Command)
    requires Encodable(c) && Short(c.form)
    ensures var lc := if HasData(c.form) then [|c.data|] else [];
            var le := if HasLe(c.form) then [c.le % 0x100] else [];
            Encode(c) == [c.cla, c.ins, c.p1, c.p2] + (lc + c.data + le)
  {
  }

  lemma AcceptedExtended(b: Bytes)
    requires 7 <= |b| && b[4] == 0 && ClassifyExtended(b, |b|).Ok?
    ensures var f := ClassifyExtended(b, |b|).fields;
            && f.at + f.lc <= |b| && Encodable(Taken(b, f)) && Encode(Taken(b, f)) == b
            && Code(FormOf(f.caseType)) == f.caseType
  {
    hide Word, BigEndian16, Encode, Unchained;
    var f, n := ClassifyExtended(b, |b|).fields, |b|;
    var c := Taken(b, f);
    WordOfBytes(b[5], b[6]);
    LastWord(b[n - 2], b[n - 1]);
    assert b[7..7 + f.lc] == c.data;
    ExtendedParts(c);
    HeadWordAndData(b, f.lc);
    TailBytes(b, 7 + f.lc);
  }

  lemma TailBytes(b: Bytes, at: nat)
    requires at <= |b|
    ensures |b| == at ==> b[at..] == []
    ensures |b| == at + 2 ==> b[at..] == [b[at], b[at + 1]]
    ensures |b| == at + 3 ==> b[at..] == [b[at]] + [b[at + 1], b[at + 2]]
  {
  }

  lemma HeadWordAndData(b: Bytes, lc: nat)
    requires 7 + lc <= |b|
    ensures b == [b[0], b[1], b[2], b[3], b[4]] + [b[5], b[6]] + b[7..7 + lc] + b[7 + lc..]
  {
  }

  lemma LastWord(high: u8, low: u8)
    ensures 0 < OrMax(BigEndian16(high, low), 0x1_0000) <= 0x1_0000
    ensures Word(OrMax(BigEndian16(high, low), 0x1_0000)) == [high, low]
  {
  }
}
