/** Hexadecimal text: the fixed-width encoders and the address parser (servers/common/helpers.py). */
module Encoding {
  import opened Prelude

  function HexDigit(d: nat): (c: char)
    requires d < 16
  {
    if d < 10 then ('0' as int + d) as char else ('a' as int + d - 10) as char
  }

  function DigitValue(c: char): (d: Option<nat>)
    ensures d.Some? ==> d.value < 16
  {
    if '0' <= c <= '9' then Some(c as int - '0' as int)
    else if 'a' <= c <= 'f' then Some(c as int - 'a' as int + 10)
    else if 'A' <= c <= 'F' then Some(c as int - 'A' as int + 10)
    else None
  }

  lemma DigitReadsBack(d: nat)
    requires d < 16
    ensures DigitValue(HexDigit(d)) == Some(d)
  {}

  /** The digits, in order; capital ones are read too. */
  lemma DigitsAre(d: nat)
    requires d < 16
    ensures HexDigit(d) == "0123456789abcdef"[d]
    ensures DigitValue("0123456789abcdef"[d]) == Some(d) && DigitValue("0123456789ABCDEF"[d]) == Some(d)
  {}

  /** `%x`. */
  function Hex(n: nat): (s: string)
    ensures |s| >= 1
  {
    if n < 16 then [HexDigit(n)] else Hex(n / 16) + [HexDigit(n % 16)]
  }

  function Zeros(k: nat): string {
    seq(k, _ => '0')
  }

  /** `%0{width}x`: zero-padded to the width, sign included, and longer when the number needs it. */
  function PercentX(width: nat, x: int): string {
    var sign, digits := if x < 0 then "-" else "", Hex(if x < 0 then -x else x);
    sign + Zeros(if |sign| + |digits| < width then width - |sign| - |digits| else 0) + digits
  }

  /** The value of a non-empty string of hexadecimal digits, as `int(s, 16)` reads it. */
  function FromHex(s: string): Option<nat> {
    if s == "" then Some(0) else
      match (FromHex(s[..|s| - 1]), DigitValue(s[|s| - 1]))
      case (Some(v), Some(d)) => Some(16 * v + d)
      case _ => None
  }

  function Pow16(w: nat): (p: nat)
    ensures p >= 1
  {
    if w == 0 then 1 else 16 * Pow16(w - 1)
  }

  lemma {:induction false} FromHexOfHex(n: nat)
    ensures FromHex(Hex(n)) == Some(n)
  {
    var s := Hex(n);
    if n < 16 {
      assert FromHex(s[..0]) == Some(0);
    } else {
      FromHexOfHex(n / 16);
      assert s[..|s| - 1] == Hex(n / 16);
    }
  }

  lemma {:induction false} LeadingZeros(k: nat, s: string)
    ensures FromHex(Zeros(k) + s) == FromHex(s)
    decreases k + |s|
  {
    var t := Zeros(k) + s;
    if s != "" {
      assert t[..|t| - 1] == Zeros(k) + s[..|s| - 1];
      LeadingZeros(k, s[..|s| - 1]);
    } else if k > 0 {
      assert t[..|t| - 1] == Zeros(k - 1) + s;
      LeadingZeros(k - 1, s);
    }
  }

  lemma {:induction false} HexLength(n: nat, w: nat)
    requires w >= 1
    ensures |Hex(n)| <= w <==> n < Pow16(w)
  {
    if w == 1 {
      assert Pow16(1) == 16 * Pow16(0);
    } else if n >= 16 {
      HexLength(n / 16, w - 1);
    } else {
      assert Pow16(w) == 16 * Pow16(w - 1);
    }
  }

  /** A number printed at a width reads back, and fills exactly that width when it is in range. */
  lemma {:induction false} PercentXReadsBack(width: nat, n: nat)
    requires width >= 1
    ensures FromHex(PercentX(width, n)) == Some(n)
    ensures |PercentX(width, n)| == width <==> n < Pow16(width)
  {
    var digits := Hex(n);
    var k := if |digits| < width then width - |digits| else 0;
    assert PercentX(width, n) == Zeros(k) + digits;
    LeadingZeros(k, digits);
    FromHexOfHex(n);
    HexLength(n, width);
  }

  /** A negative number prints its sign within the width. */
  lemma NegativePercentX(width: nat, n: int)
    requires width >= 1 && n > 0
    ensures PercentX(width, -n) == "-" + PercentX(width - 1, n)
  {
    var digits := Hex(n);
    var k := if |digits| < width - 1 then width - 1 - |digits| else 0;
    assert "-" + Zeros(k) + digits == "-" + (Zeros(k) + digits);
    assert "" + Zeros(k) + digits == Zeros(k) + digits;
  }

  /** `int(s, 16)`, which allows a prefix; None is a ValueError. */
  function IntBase16(s: string): Option<nat> {
    var digits := if "0x" <= s || "0X" <= s then s[2..] else s;
    if digits == "" then None else FromHex(digits)
  }

  lemma TwoDigits(c: char, d: char)
    ensures FromHex([c, d]) == match (DigitValue(c), DigitValue(d))
                               case (Some(hi), Some(lo)) => Some(16 * hi + lo)
                               case _ => None
  {
    assert [c, d][..1] == [c] && [c][..0] == "";
    assert FromHex("") == Some(0);
  }

  /** The most significant digit comes first. */
  lemma HexExample()
    ensures Hex(0x1F) == "1f" && FromHex("1f") == Some(0x1F) && FromHex("1g") == None
  {
    TwoDigits('1', 'f');
    TwoDigits('1', 'g');
  }

  lemma {:induction false} PrefixesAreRead(s: string)
    requires s != ""
    ensures IntBase16("0x" + s) == FromHex(s) && IntBase16("0X" + s) == FromHex(s)
    ensures IntBase16("") == None && IntBase16("0x") == None
  {
    assert ("0x" + s)[2..] == s && ("0X" + s)[2..] == s;
  }

  /** `addr_to_number`. */
  function AddrToNumber(addr: string): Option<nat> {
    if addr == "" then Some(0) else IntBase16(if "0x" <= addr then addr[2..] else addr)
  }

  /** No address is number 0; otherwise a prefix is skipped once more than `int` does. */
  lemma AddressesAreRead(s: string)
    ensures AddrToNumber("") == Some(0) && AddrToNumber("0x" + s) == IntBase16(s)
    ensures s != "" && !("0x" <= s) ==> AddrToNumber(s) == IntBase16(s)
  {
    assert ("0x" + s)[2..] == s;
  }

  lemma AddressReadsBack(n: nat)
    ensures AddrToNumber("0x" + PercentX(40, n)) == Some(n)
  {
    PercentXReadsBack(40, n);
    var s := PercentX(40, n);
    assert ("0x" + s)[2..] == s;
    NoPrefix(40, n);
  }

  lemma NoPrefix(width: nat, n: nat)
    ensures var s := PercentX(width, n); s != "" && !("0x" <= s) && !("0X" <= s)
  {
    var s := PercentX(width, n);
    OnlyDigits(n);
    assert forall i :: 0 <= i < |s| ==> DigitValue(s[i]).Some?;
    if |s| >= 2 {
      assert s[1] != 'x' && s[1] != 'X';
    }
  }

  lemma {:induction false} OnlyDigits(n: nat)
    ensures forall i :: 0 <= i < |Hex(n)| ==> DigitValue(Hex(n)[i]).Some?
  {
    if n >= 16 {
      OnlyDigits(n / 16);
    }
  }

  /** `bytes.hex()`. */
  function BytesHex(b: seq<Byte>): (s: string)
    ensures |s| == 2 * |b|
  {
    if b == [] then "" else
      var last := b[|b| - 1];
      BytesHex(b[..|b| - 1]) + [HexDigit(last / 16), HexDigit(last % 16)]
  }

  /** Each byte takes two digits at its own place, the higher one first. */
  lemma {:induction false} BytesHexAt(b: seq<Byte>, i: nat)
    requires i < |b|
    ensures BytesHex(b)[2 * i] == HexDigit(b[i] / 16) && BytesHex(b)[2 * i + 1] == HexDigit(b[i] % 16)
  {
    if i < |b| - 1 {
      BytesHexAt(b[..|b| - 1], i);
    }
  }

  function FromBytesHex(s: string): Option<seq<Byte>> {
    if s == "" then Some([])
    else if |s| == 1 then None
    else
      match (FromBytesHex(s[..|s| - 2]), DigitValue(s[|s| - 2]), DigitValue(s[|s| - 1]))
      case (Some(b), Some(hi), Some(lo)) => Some(b + [16 * hi + lo])
      case _ => None
  }

  lemma {:induction false} BytesReadBack(b: seq<Byte>)
    ensures FromBytesHex(BytesHex(b)) == Some(b)
  {
    if b != [] {
      var s := BytesHex(b);
      assert s[..|s| - 2] == BytesHex(b[..|b| - 1]);
      BytesReadBack(b[..|b| - 1]);
      DigitReadsBack(b[|b| - 1] / 16);
      DigitReadsBack(b[|b| - 1] % 16);
      assert b[..|b| - 1] + [b[|b| - 1]] == b;
    }
  }

  /** `x.ljust(32, b'\0')`. */
  function LJust32(b: seq<Byte>): seq<Byte> {
    b + NulBytes(if |b| < 32 then 32 - |b| else 0)
  }

  function NulBytes(k: nat): seq<Byte> {
    seq(k, _ => 0)
  }

  function StripNuls(b: seq<Byte>): seq<Byte> {
    if b != [] && b[|b| - 1] == 0 then StripNuls(b[..|b| - 1]) else b
  }

  lemma {:induction false} StripUndoesPadding(b: seq<Byte>, k: nat)
    requires b == [] || b[|b| - 1] != 0
    ensures StripNuls(b + NulBytes(k)) == b
  {
    var t := b + NulBytes(k);
    if k == 0 {
      assert t == b;
    } else {
      assert t[..|t| - 1] == b + NulBytes(k - 1);
      StripUndoesPadding(b, k - 1);
    }
  }
}
