/** `HResultError` and `ThrowIfFailed` (CruUI/Exception.h, CruUI/Exception.cpp):
    the error text built from a 32-bit HRESULT and an optional message. */
module HResult {
  import opened Wrappers

  /** HRESULT is a signed 32-bit integer. */
  newtype HResultCode = h: int | -0x8000_0000 <= h < 0x8000_0000

  /** The exception object; its observable content is its `what()` text. */
  datatype HResultError = HResultError(message: string)

  const MessagePrefix: string := "An HResultError is thrown. HRESULT: 0x"
  const AdditionalMessageLabel: string := "Additional message: "

  /** `sizeof(HRESULT) * 2`: the field width of the hex part. */
  const HexWidth: nat := 8

  /** `FAILED(h)`: the severity bit is set, that is, the code is negative. */
  predicate Failed(h: HResultCode) {
    h < 0
  }

  /** The value `std::hex` prints for a signed code: its 32-bit two's
      complement bit pattern. */
  function Unsigned(h: HResultCode): (u: nat)
    ensures u < 0x1_0000_0000
    ensures h >= 0 ==> u == h as int
    ensures h < 0 ==> u == h as int + 0x1_0000_0000
  {
    if h < 0 then h as int + 0x1_0000_0000 else h as int
  }

  /** Reads a 32-bit pattern back as a signed code. */
  function Signed(u: nat): HResultCode
    requires u < 0x1_0000_0000
  {
    if u < 0x8000_0000 then u as HResultCode else (u - 0x1_0000_0000) as HResultCode
  }

  lemma SignedUnsigned(h: HResultCode)
    ensures Signed(Unsigned(h)) == h
  {
  }

  function HexDigit(d: nat): (c: char)
    requires d < 16
    ensures IsLowerHex(c)
  {
    "0123456789abcdef"[d]
  }

  predicate IsLowerHex(c: char) {
    '0' <= c <= '9' || 'a' <= c <= 'f'
  }

  function DigitValue(c: char): nat
    requires IsLowerHex(c)
  {
    if '0' <= c <= '9' then c as nat - '0' as nat else c as nat - 'a' as nat + 10
  }

  /** The digits `std::hex` writes for `n`, without padding: the shortest
      lowercase hexadecimal numeral ("0" for zero). */
  function HexDigits(n: nat): (s: string)
    ensures |s| >= 1
    ensures forall i :: 0 <= i < |s| ==> IsLowerHex(s[i])
    decreases n
  {
    if n < 16 then [HexDigit(n)] else HexDigits(n / 16) + [HexDigit(n % 16)]
  }

  /** `std::setfill('0') << std::setw(width)`: left-pad to at least `width`. */
  function PadLeft(s: string, width: nat, fill: char): (r: string)
    ensures |r| == if |s| >= width then |s| else width
    ensures r[|r| - |s|..] == s
    ensures forall i :: 0 <= i < |r| - |s| ==> r[i] == fill
  {
    if |s| >= width then s else seq(width - |s|, _ => fill) + s
  }

  /** The hex field of the message. */
  function HexField(h: HResultCode): string {
    PadLeft(HexDigits(Unsigned(h)), HexWidth, '0')
  }

  /** `HResultError::MakeMessage(h_result, message)`. */
  function MakeMessage(h: HResultCode, message: Option<string>): (r: string)
    ensures |r| >= |MessagePrefix| + HexWidth + 1
    ensures r[..|MessagePrefix|] == MessagePrefix
  {
    HexFieldLength(h);
    MessagePrefix + HexField(h) + "."
      + match message
        case None => ""
        case Some(m) => AdditionalMessageLabel + m
  }

  /** `HResultError(h_result)`. */
  function NewHResultError(h: HResultCode): (e: HResultError)
    ensures var n := |MessagePrefix| + HexWidth;
      && |e.message| == n + 1
      && e.message[..|MessagePrefix|] == MessagePrefix
      && e.message[|MessagePrefix|..n] == HexField(h)
      && e.message[n] == '.'
  {
    MessageDecodes(h, None);
    HResultError(MakeMessage(h, None))
  }

  /** `HResultError(h_result, message)`. */
  function NewHResultErrorWithMessage(h: HResultCode, message: string): (e: HResultError)
    ensures var n := |MessagePrefix| + HexWidth;
      && |e.message| > n
      && e.message[..|MessagePrefix|] == MessagePrefix
      && e.message[|MessagePrefix|..n] == HexField(h)
      && e.message[n] == '.'
      && e.message[n + 1..] == AdditionalMessageLabel + message
  {
    MessageDecodes(h, Some(message));
    HResultError(MakeMessage(h, Some(message)))
  }

  /** `ThrowIfFailed(h_result)`. */
  function ThrowIfFailed(h: HResultCode): (r: Outcome<HResultError>)
    ensures r.Fail? <==> h < 0
    ensures r.Fail? ==> r.error.message == MessagePrefix + HexField(h) + "."
  {
    if Failed(h) then Fail(NewHResultError(h)) else Pass
  }

  /** `ThrowIfFailed(h_result, message)`. */
  function ThrowIfFailedWithMessage(h: HResultCode, message: string): (r: Outcome<HResultError>)
    ensures r.Fail? <==> h < 0
    ensures r.Fail? ==> r.error.message == MessagePrefix + HexField(h) + "." + AdditionalMessageLabel + message
  {
    if Failed(h) then
      AppendAssoc(MessagePrefix + HexField(h) + ".", AdditionalMessageLabel, message);
      Fail(NewHResultErrorWithMessage(h, message))
    else Pass
  }

  lemma AppendAssoc(a: string, b: string, c: string)
    ensures a + (b + c) == a + b + c
  {
  }

  // ---------------------------------------------------------------------
  // Reading the hex field back, and its width

  /** The number a hexadecimal numeral denotes (leading zeros allowed). */
  function ParseHex(s: string): nat
    requires forall i :: 0 <= i < |s| ==> IsLowerHex(s[i])
  {
    if s == [] then 0 else ParseHex(s[..|s| - 1]) * 16 + DigitValue(s[|s| - 1])
  }

  function Pow16(k: nat): (p: nat)
    ensures p >= 1
  {
    if k == 0 then 1 else 16 * Pow16(k - 1)
  }

  lemma {:induction false} DigitRoundTrip(d: nat)
    requires d < 16
    ensures DigitValue(HexDigit(d)) == d
  {
    var digits := "0123456789abcdef";
    assert digits[d] == HexDigit(d);
    if d < 10 {
      assert '0' as nat + d == HexDigit(d) as nat;
    } else {
      assert 'a' as nat + (d - 10) == HexDigit(d) as nat;
    }
  }

  lemma {:induction false} ParseHexDigits(n: nat)
    ensures ParseHex(HexDigits(n)) == n
    decreases n
  {
    var s := HexDigits(n);
    if n < 16 {
      DigitRoundTrip(n);
      assert s[..|s| - 1] == [];
    } else {
      ParseHexDigits(n / 16);
      DigitRoundTrip(n % 16);
      assert s[..|s| - 1] == HexDigits(n / 16);
    }
  }

  lemma {:induction false} ParseHexLeadingZeros(k: nat, s: string)
    requires forall i :: 0 <= i < |s| ==> IsLowerHex(s[i])
    ensures ParseHex(seq(k, _ => '0') + s) == ParseHex(s)
    decreases |s|
  {
    var t := seq(k, _ => '0') + s;
    if s == [] {
      ParseHexZeros(k);
      assert t == seq(k, _ => '0');
    } else {
      ParseHexLeadingZeros(k, s[..|s| - 1]);
      assert t[..|t| - 1] == seq(k, _ => '0') + s[..|s| - 1];
    }
  }

  lemma {:induction false} ParseHexZeros(k: nat)
    ensures ParseHex(seq(k, _ => '0')) == 0
  {
    if k > 0 {
      var z := seq(k, _ => '0');
      assert z[..k - 1] == seq(k - 1, _ => '0');
      ParseHexZeros(k - 1);
    }
  }

  lemma {:induction false} HexDigitsLength(n: nat, k: nat)
    requires 1 <= k && n < Pow16(k)
    ensures |HexDigits(n)| <= k
    decreases k
  {
    assert Pow16(1) == 16;
    if n >= 16 {
      assert n / 16 < Pow16(k - 1);
      HexDigitsLength(n / 16, k - 1);
    }
  }

  /** The hex field is always exactly eight digits: a 32-bit pattern never
      needs more, and `setw` pads up to eight. */
  lemma HexFieldLength(h: HResultCode)
    ensures |HexField(h)| == HexWidth
    ensures forall i :: 0 <= i < HexWidth ==> IsLowerHex(HexField(h)[i])
  {
    assert Pow16(8) == 0x1_0000_0000;
    HexDigitsLength(Unsigned(h), 8);
  }

  /** The hex field denotes the code's 32-bit two's-complement pattern, so the
      code can be read back from it. */
  lemma HexFieldRoundTrip(h: HResultCode)
    ensures |HexField(h)| == HexWidth
    ensures forall i :: 0 <= i < HexWidth ==> IsLowerHex(HexField(h)[i])
    ensures ParseHex(HexField(h)) == Unsigned(h)
    ensures Signed(ParseHex(HexField(h))) == h
  {
    HexFieldLength(h);
    ParseHexDigits(Unsigned(h));
    ParseHexPadded(HexDigits(Unsigned(h)), HexWidth);
  }

  lemma ParseHexPadded(s: string, width: nat)
    requires forall i :: 0 <= i < |s| ==> IsLowerHex(s[i])
    ensures forall i :: 0 <= i < |PadLeft(s, width, '0')| ==> IsLowerHex(PadLeft(s, width, '0')[i])
    ensures ParseHex(PadLeft(s, width, '0')) == ParseHex(s)
  {
    if |s| < width {
      ParseHexLeadingZeros(width - |s|, s);
    }
  }

  /** The whole message can be taken apart again: the prefix, eight hex
      digits denoting the code, a '.', and then nothing (no message) or the
      label followed by the message verbatim. */
  lemma MessageDecodes(h: HResultCode, message: Option<string>)
    ensures var r := MakeMessage(h, message);
      var n := |MessagePrefix| + HexWidth;
      && r[..|MessagePrefix|] == MessagePrefix
      && r[|MessagePrefix|..n] == HexField(h)
      && ParseHex(r[|MessagePrefix|..n]) == Unsigned(h)
      && Signed(ParseHex(r[|MessagePrefix|..n])) == h
      && r[n] == '.'
      && (message.None? ==> |r| == n + 1)
      && (message.Some? ==> r[n + 1..] == AdditionalMessageLabel + message.value)
  {
    HexFieldRoundTrip(h);
    var tail := match message case None => "" case Some(m) => AdditionalMessageLabel + m;
    assert MakeMessage(h, message) == MessagePrefix + HexField(h) + "." + tail;
    MessageParts(MessagePrefix, HexField(h), tail);
  }

  /** Where the parts of `prefix + field + "." + tail` lie. */
  lemma MessageParts(prefix: string, field: string, tail: string)
    ensures var r, n := prefix + field + "." + tail, |prefix| + |field|;
      && |r| == n + 1 + |tail|
      && r[..|prefix|] == prefix && r[|prefix|..n] == field && r[n] == '.' && r[n + 1..] == tail
  {
    var r, n := prefix + field + "." + tail, |prefix| + |field|;
    assert r[|prefix|..n] == field;
    assert r[n + 1..] == tail;
  }

  /** The two constructors agree on everything up to and including the '.'
      and differ only in the optional suffix. */
  lemma ConstructorsShareHead(h: HResultCode, message: string)
    ensures var plain := NewHResultError(h).message;
      var full := NewHResultErrorWithMessage(h, message).message;
      && full == plain + AdditionalMessageLabel + message
  {
  }

  /** Non-negative codes, success codes included, never throw. */
  lemma NonNegativeNeverThrows(h: HResultCode, message: string)
    requires h >= 0
    ensures ThrowIfFailed(h) == Pass && ThrowIfFailedWithMessage(h, message) == Pass
  {
  }
}
