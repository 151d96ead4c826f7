/** Fixed-width hexadecimal: "%016x" and the strtoull based reader (common/block.c). */
module Hex {
  import opened Text

  const U64_COUNT := 0x1_0000_0000_0000_0000

  type U64 = n: int | 0 <= n < U64_COUNT

  /** Unsigned 64-bit increment: wraps to 0. */
  function Inc(n: U64): U64 { if n == U64_COUNT - 1 then 0 else n + 1 }

  function Pow16(w: nat): (p: nat)
    ensures p > 0
  {
    if w == 0 then 1 else 16 * Pow16(w - 1)
  }

  predicate IsHex(c: char) { IsLowerHex(c) || 'A' <= c <= 'F' }

  function DigitValue(c: char): (v: nat)
    requires IsHex(c)
    ensures v < 16
  {
    if IsDigit(c) then (c - '0') as nat
    else if 'a' <= c <= 'f' then (c - 'a') as nat + 10
    else (c - 'A') as nat + 10
  }

  function DigitChar(v: nat): (c: char)
    requires v < 16
    ensures IsLowerHex(c) && DigitValue(c) == v
  {
    if v < 10 then '0' + v as char else 'a' + (v - 10) as char
  }

  predicate AllHex(s: string) { forall i :: 0 <= i < |s| ==> IsHex(s[i]) }

  predicate AllLowerHex(s: string) { forall i :: 0 <= i < |s| ==> IsLowerHex(s[i]) }

  function HexText(n: nat, width: nat): (s: string)
    ensures |s| == width && AllLowerHex(s)
  {
    if width == 0 then "" else HexText(n / 16, width - 1) + [DigitChar(n % 16)]
  }

  function HexValue(s: string): nat
    requires AllHex(s)
  {
    if s == "" then 0 else 16 * HexValue(s[..|s| - 1]) + DigitValue(s[|s| - 1])
  }

  lemma {:induction false} HexRoundTrip(n: nat, width: nat)
    requires n < Pow16(width)
    ensures HexValue(HexText(n, width)) == n
  {
    if width > 0 {
      var s := HexText(n, width);
      assert s[..|s| - 1] == HexText(n / 16, width - 1);
      HexRoundTrip(n / 16, width - 1);
    }
  }

  lemma DigitBack(c: char)
    requires IsLowerHex(c)
    ensures DigitChar(DigitValue(c)) == c
  {
  }

  lemma DivMod(q: nat, r: nat)
    requires r < 16
    ensures (16 * q + r) / 16 == q && (16 * q + r) % 16 == r
  {
  }

  lemma HexTextSnoc(q: nat, r: nat, width: nat)
    requires r < 16
    ensures HexText(16 * q + r, width + 1) == HexText(q, width) + [DigitChar(r)]
  {
    hide DigitChar;
    DivMod(q, r);
  }

  lemma HexValueSnoc(front: string, last: char)
    requires AllHex(front) && IsHex(last)
    ensures HexValue(front + [last]) == 16 * HexValue(front) + DigitValue(last)
  {
    hide DigitValue, IsHex;
    var s := front + [last];
    assert s[..|s| - 1] == front && s[|s| - 1] == last;
  }

  /** Lowercase digits are the text of their value. */
  lemma {:induction false} HexTextOfValue(s: string)
    requires AllLowerHex(s)
    ensures HexText(HexValue(s), |s|) == s && HexValue(s) < Pow16(|s|)
    decreases |s|
  {
    if s != "" {
      hide HexText, HexValue, DigitValue, DigitChar;
      var front, last := s[..|s| - 1], s[|s| - 1];
      assert s == front + [last];
      HexTextOfValue(front);
      DigitBack(last);
      HexValueSnoc(front, last);
      HexTextSnoc(HexValue(front), DigitValue(last), |front|);
    } else {
      HexNone();
    }
  }

  lemma HexNone()
    ensures HexText(HexValue(""), 0) == "" && HexValue("") == 0 < Pow16(0)
  {
  }

  lemma Pow16Is64Bits()
    ensures Pow16(16) == U64_COUNT
  {
    assert Pow16(4) == 0x1_0000;
    assert Pow16(8) == 0x1_0000_0000 by { assert Pow16(6) == 0x100_0000; }
    assert Pow16(12) == 0x1_0000_0000_0000 by { assert Pow16(10) == 0x100_0000_0000; }
    assert Pow16(14) == 0x100_0000_0000_0000;
  }

  /** "%016x" of a 64-bit value. */
  function Hex16(n: U64): (s: string)
    ensures |s| == 16 && AllLowerHex(s)
  {
    HexText(n, 16)
  }

  predicate IsSpace(c: char) { c == ' ' || '\t' <= c <= '\r' }

  function DropSpaces(s: string): string {
    if s != "" && IsSpace(s[0]) then DropSpaces(s[1..]) else s
  }

  /** strtoull(s, &end, 16) when the whole of `s` must be consumed: leading white space, a
      sign (a minus negates modulo 2^64) and a "0x" prefix are all admitted. */
  function StrToU64(s: string): Option<U64> {
    var t := DropSpaces(s);
    var negative := t != "" && t[0] == '-';
    var d := if t != "" && (t[0] == '-' || t[0] == '+') then t[1..] else t;
    var e := if |d| > 2 && d[0] == '0' && (d[1] == 'x' || d[1] == 'X') && IsHex(d[2]) then d[2..] else d;
    if e == "" || !AllHex(e) then None
    else
      var v := HexValue(e);
      if v >= U64_COUNT then None
      else Some(if negative && v > 0 then U64_COUNT - v else v)
  }

  /** parse_hex_u64: exactly sixteen characters, all consumed by strtoull. */
  function ParseHexU64(s: string): Result<U64> {
    if |s| != 16 then Err(FileFormat)
    else match StrToU64(s)
      case None => Err(FileFormat)
      case Some(v) => Ok(v)
  }

  /** Lowercase digits with no sign, blank or prefix are read at face value. */
  lemma ReadsDigits(s: string)
    requires |s| >= 2 && AllLowerHex(s) && HexValue(s) < U64_COUNT
    ensures StrToU64(s) == Some(HexValue(s))
  {
    hide HexValue;
    assert IsLowerHex(s[0]) && IsLowerHex(s[1]);
    assert DropSpaces(s) == s;
  }

  /** Whatever the printer writes, the lenient reader reads back. */
  lemma ParseHex16(n: U64)
    ensures ParseHexU64(Hex16(n)) == Ok(n)
  {
    hide StrToU64, HexText, HexValue;
    Pow16Is64Bits();
    HexRoundTrip(n, 16);
    ReadsDigits(Hex16(n));
  }

  lemma Hex16Injective(m: U64, n: U64)
    requires Hex16(m) == Hex16(n)
    ensures m == n
  {
    ParseHex16(m);
    ParseHex16(n);
  }

  lemma ReadsPrefixed(e: string)
    requires e != "" && AllLowerHex(e) && HexValue(e) < U64_COUNT
    ensures StrToU64("0x" + e) == Some(HexValue(e))
  {
    hide HexValue;
    var s := "0x" + e;
    assert s[0] == '0' && s[1] == 'x' && s[2] == e[0] && s[2..] == e;
    assert DropSpaces(s) == s;
  }

  /** The reader is not injective: a value below 16^14 also has a "0x" spelling. */
  lemma NonCanonicalSpelling(v: nat)
    requires v < Pow16(14)
    ensures v < U64_COUNT && "0x" + HexText(v, 14) != Hex16(v)
    ensures ParseHexU64("0x" + HexText(v, 14)) == ParseHexU64(Hex16(v)) == Ok(v)
  {
    hide HexText, HexValue, StrToU64;
    Pow16Is64Bits();
    assert Pow16(16) == 16 * Pow16(15) == 256 * Pow16(14);
    ParseHex16(v);
    HexRoundTrip(v, 14);
    ReadsPrefixed(HexText(v, 14));
    assert IsLowerHex(Hex16(v)[1]) && ("0x" + HexText(v, 14))[1] == 'x';
  }

  // ---- all spellings ----

  predicate AllSpaces(s: string) { forall i :: 0 <= i < |s| ==> IsSpace(s[i]) }

  /** White space, a sign, a prefix and digits, one after the other, of which the first three may
      be missing; the value is below 2^64 before the sign and is negated modulo 2^64 by a minus. */
  predicate Spelled(s: string, v: U64, space: string, sign: string, prefix: string, digits: string) {
    && s == space + (sign + (prefix + digits)) && AllSpaces(space)
    && sign in {"", "+", "-"} && prefix in {"", "0x", "0X"}
    && digits != "" && AllHex(digits) && HexValue(digits) < U64_COUNT
    && v == if sign == "-" then (U64_COUNT - HexValue(digits)) % U64_COUNT else HexValue(digits)
  }

  ghost predicate Spells(s: string, v: U64) {
    exists space, sign, prefix, digits :: Spelled(s, v, space, sign, prefix, digits)
  }

  lemma {:induction false} DropsAll(space: string, rest: string)
    requires AllSpaces(space) && (rest != "" ==> !IsSpace(rest[0]))
    ensures DropSpaces(space + rest) == rest
    decreases |space|
  {
    hide IsSpace;
    var s := space + rest;
    if space == "" {
      assert s == rest;
    } else {
      assert s[0] == space[0] && s[1..] == space[1..] + rest;
      DropsAll(space[1..], rest);
    }
  }

  lemma {:induction false} DropsSpaces(s: string)
    ensures |DropSpaces(s)| <= |s| && s == s[..|s| - |DropSpaces(s)|] + DropSpaces(s)
    ensures AllSpaces(s[..|s| - |DropSpaces(s)|])
    decreases |s|
  {
    hide IsSpace;
    if s != "" && IsSpace(s[0]) {
      DropsSpaces(s[1..]);
      var n := |s| - |DropSpaces(s)|;
      assert s[..n] == [s[0]] + s[1..][..n - 1];
    } else {
      assert s[..0] == "";
    }
  }

  /** strtoull without its white space. */
  function SignOf(t: string): string { if t != "" && (t[0] == '-' || t[0] == '+') then [t[0]] else "" }

  function PrefixOf(d: string): string {
    if |d| > 2 && d[0] == '0' && (d[1] == 'x' || d[1] == 'X') && IsHex(d[2]) then d[..2] else ""
  }

  lemma StrToU64Parts(s: string)
    ensures var t := DropSpaces(s);
            var sign := SignOf(t);
            var d := t[|sign|..];
            var digits := d[|PrefixOf(d)|..];
            StrToU64(s) ==
            if digits == "" || !AllHex(digits) || HexValue(digits) >= U64_COUNT then None
            else Some(if sign == "-" then (U64_COUNT - HexValue(digits)) % U64_COUNT else HexValue(digits))
  {
    hide HexValue, AllHex, DropSpaces;
  }

  lemma PartCases(t: string)
    ensures SignOf(t) in {"", "+", "-"} && |SignOf(t)| <= |t| && t == SignOf(t) + t[|SignOf(t)|..]
    ensures PrefixOf(t) in {"", "0x", "0X"} && |PrefixOf(t)| <= |t| && t == PrefixOf(t) + t[|PrefixOf(t)|..]
  {
    if t != "" && t[0] == '-' { assert [t[0]] == "-"; }
    if t != "" && t[0] == '+' { assert [t[0]] == "+"; }
    if PrefixOf(t) != "" { assert t[..2] == "0x" || t[..2] == "0X"; }
  }

  lemma PrefixBack(prefix: string, digits: string)
    requires prefix in {"", "0x", "0X"} && digits != "" && AllHex(digits)
    ensures PrefixOf(prefix + digits) == prefix
  {
    var d := prefix + digits;
    if prefix == "" {
      assert d == digits;
      if |d| > 2 { assert IsHex(digits[1]); }
    } else {
      assert d[2] == digits[0];
      assert d[..2] == prefix;
    }
  }

  lemma SignBack(sign: string, d: string)
    requires sign in {"", "+", "-"} && d != "" && IsHex(d[0])
    ensures var t := sign + d; t != "" && !IsSpace(t[0]) && SignOf(t) == sign && t[|sign|..] == d
  {
    var t := sign + d;
    if sign == "" { assert t == d; } else { assert t[0] == sign[0] && [t[0]] == sign; }
  }

  lemma SpelledReads(s: string, v: U64, space: string, sign: string, prefix: string, digits: string)
    requires Spelled(s, v, space, sign, prefix, digits)
    ensures StrToU64(s) == Some(v)
  {
    hide HexValue, PrefixOf, SignOf, StrToU64, DropSpaces, AllSpaces;
    var d := prefix + digits;
    assert IsHex(digits[0]) && d[0] == (prefix + digits)[0];
    PrefixBack(prefix, digits);
    assert IsHex(d[0]) && d[|prefix|..] == digits;
    SignBack(sign, d);
    DropsAll(space, sign + d);
    StrToU64Parts(s);
  }

  /** The reader takes exactly the sixteen-character spellings of a value, and reads that value. */
  lemma ParseHexExact(s: string, v: U64)
    ensures ParseHexU64(s) == Ok(v) <==> |s| == 16 && Spells(s, v)
  {
    hide StrToU64, Spelled, HexValue;
    if ParseHexU64(s) == Ok(v) { ReadsSpelled(s, v); }
    forall space, sign, prefix, digits | Spelled(s, v, space, sign, prefix, digits) ensures StrToU64(s) == Some(v) {
      SpelledReads(s, v, space, sign, prefix, digits);
    }
  }

  lemma ReadsSpelled(s: string, v: U64)
    requires StrToU64(s) == Some(v)
    ensures Spells(s, v)
  {
    hide HexValue, SignOf, PrefixOf, StrToU64, DropSpaces;
    StrToU64Parts(s);
    DropsSpaces(s);
    var t := DropSpaces(s);
    PartCases(t);
    var space, sign := s[..|s| - |t|], SignOf(t);
    var d := t[|sign|..];
    PartCases(d);
    var prefix := PrefixOf(d);
    var digits := d[|prefix|..];
    assert s == space + (sign + (prefix + digits));
    assert Spelled(s, v, space, sign, prefix, digits);
  }

  /** Capital digits count as small ones. */
  function Lower(c: char): char { if 'A' <= c <= 'F' then 'a' + (c - 'A') else c }

  lemma LowerDigit(c: char)
    requires IsHex(c)
    ensures IsLowerHex(Lower(c)) && DigitValue(Lower(c)) == DigitValue(c)
  {
  }

  /** A field that reads as a number holds no comma. */
  lemma NumberHoldsNoComma(s: string)
    requires ParseHexU64(s).Ok?
    ensures ',' !in s
  {
    hide HexValue;
    var v := ParseHexU64(s).value;
    ParseHexExact(s, v);
    var space, sign, prefix, digits :| Spelled(s, v, space, sign, prefix, digits);
    assert forall c :: c in space ==> IsSpace(c);
    assert forall c :: c in digits ==> IsHex(c);
    assert ',' !in space && ',' !in sign && ',' !in prefix && ',' !in digits;
  }
}
