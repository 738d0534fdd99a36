/** Diagnostics for confirmation codes: the host prints the table entry for a
    known code and Python's `hex()` rendering of any other code. The text is
    for display only; no decision of the program depends on it. */
module Messages {
  import opened Bytes

  /** The confirmation-code table of the host program, as written there. */
  const ConfirmCodes: map<byte, string> := map[
    0x00 := "OK",
    0x01 := "Error: turno dedo",
    0x02 := "Error: captura",
    0x03 := "Error: imagen ruidosa",
    0x06 := "Timeout colocando dedo",
    0x07 := "Error: no se pueden extraer características",
    0x08 := "Error: buffer lleno",
    0x09 := "Error: página no encontrada",
    0x0A := "Error: comando inválido",
    0x0B := "Error: ancho de imagen",
    0x0C := "Error: longitud de paquete"
  ]

  const HexAlphabet: string := "0123456789abcdef"

  predicate IsHexDigit(c: char)
  {
    '0' <= c <= '9' || 'a' <= c <= 'f'
  }

  function HexDigit(d: nat): (c: char)
    requires d < 16
    ensures IsHexDigit(c) && DigitValue(c) == d
  {
    HexAlphabet[d]
  }

  /** The value of one lower-case hexadecimal digit. */
  function DigitValue(c: char): (d: nat)
    requires IsHexDigit(c)
    ensures d < 16
  {
    if c <= '9' then (c - '0') as nat else (c - 'a') as nat + 10
  }

  /** The digits of `hex(n)` after the `0x` prefix: lower case, most
      significant first, no leading zero except for zero itself. */
  function HexDigits(n: nat): (s: string)
    ensures |s| >= 1
    ensures forall i :: 0 <= i < |s| ==> IsHexDigit(s[i])
    ensures s[0] == '0' ==> n == 0 && s == "0"
    decreases n
  {
    if n < 16 then [HexDigit(n)] else HexDigits(n / 16) + [HexDigit(n % 16)]
  }

  /** Python's `hex(n)` for a non-negative integer. */
  function Hex(n: nat): (s: string)
    ensures |s| >= 3 && s[..2] == "0x" && s[2..] == HexDigits(n)
  {
    "0x" + HexDigits(n)
  }

  /** Reading a string of hexadecimal digits back as a number. */
  function ParseHexDigits(s: string): nat
    requires forall i :: 0 <= i < |s| ==> IsHexDigit(s[i])
  {
    if s == [] then 0 else ParseHexDigits(s[..|s| - 1]) * 16 + DigitValue(s[|s| - 1])
  }

  /** The digits `hex()` writes read back as the number written. */
  lemma {:induction false} HexDigitsRoundTrip(n: nat)
    ensures ParseHexDigits(HexDigits(n)) == n
    decreases n
  {
    var s := HexDigits(n);
    if n >= 16 {
      HexDigitsRoundTrip(n / 16);
      assert s[..|s| - 1] == HexDigits(n / 16);
    }
  }

  /** `CONFIRM_CODES.get(code, hex(code))`: the table text for a known code,
      otherwise the code in hexadecimal, so every code renders. */
  function Message(code: byte): (m: string)
    ensures code in ConfirmCodes ==> m == ConfirmCodes[code]
    ensures code !in ConfirmCodes ==>
      |m| >= 3 && m[..2] == "0x" && (forall i :: 2 <= i < |m| ==> IsHexDigit(m[i]))
      && m[2..] == HexDigits(code) && ParseHexDigits(m[2..]) == code
  {
    if code in ConfirmCodes then ConfirmCodes[code]
    else
      HexDigitsRoundTrip(code);
      assert Hex(code)[2..] == HexDigits(code);
      Hex(code)
  }

  /** No table text looks like a hexadecimal fallback. */
  lemma TableTextIsNotHex(code: byte)
    requires code in ConfirmCodes
    ensures |ConfirmCodes[code]| >= 2 && ConfirmCodes[code][0] != '0'
  {
    var texts := ConfirmCodes.Values;
    assert ConfirmCodes[code] in texts;
  }

  /** Distinct codes get distinct messages, so a printed message identifies
      the code the sensor returned. */
  lemma MessageInjective(a: byte, b: byte)
    requires Message(a) == Message(b)
    ensures a == b
  {
    if a in ConfirmCodes && b in ConfirmCodes {
      TableInjective(a, b);
    } else if a in ConfirmCodes {
      TableTextIsNotHex(a);
    } else if b in ConfirmCodes {
      TableTextIsNotHex(b);
    }
  }

  lemma TableInjective(a: byte, b: byte)
    requires a in ConfirmCodes && b in ConfirmCodes && ConfirmCodes[a] == ConfirmCodes[b]
    ensures a == b
  {
  }

  /** An unmapped code renders as its value, e.g. 0x7F as "0x7f". */
  lemma UnmappedExample()
    ensures Message(0x7F) == "0x7f" && Message(0x10) == "0x10" && Message(0x04) == "0x4"
  {
    assert 0x7F !in ConfirmCodes && 0x10 !in ConfirmCodes && 0x04 !in ConfirmCodes;
    assert HexDigits(0x7F) == HexDigits(7) + [HexDigit(15)];
    assert HexDigits(0x10) == HexDigits(1) + [HexDigit(0)];
  }
}
