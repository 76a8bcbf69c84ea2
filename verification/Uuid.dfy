/** Parsing of Kubernetes object UIDs into the 16 bytes under which rows are stored. */
module Uuid {
  import opened Wrappers

  type Byte = x: int | 0 <= x < 256

  /** A Go string: the bytes of the text. */
  type Text = seq<Byte>

  type Uuid = b: seq<Byte> | |b| == 16 witness seq(16, _ => 0)

  const NIL_UUID: Uuid := seq(16, _ => 0)

  /** The digit value of an ASCII hexadecimal digit of either case. */
  function HexValue(c: Byte): (r: Option<nat>)
    ensures r.Some? ==> r.value < 16
  {
    if '0' as int <= c <= '9' as int then Some(c - '0' as int)
    else if 'a' as int <= c <= 'f' as int then Some(c - 'a' as int + 10)
    else if 'A' as int <= c <= 'F' as int then Some(c - 'A' as int + 10)
    else None
  }

  /** `hex.DecodeString`: two digits a byte, failing on an odd length or on a byte that is no digit. */
  function DecodeHex(s: Text): (r: Option<seq<Byte>>)
    ensures r.Some? ==> |s| == 2 * |r.value|
  {
    if s == [] then Some([])
    else if |s| == 1 then None
    else
      match (HexValue(s[0]), HexValue(s[1]), DecodeHex(s[2..]))
      case (Some(hi), Some(lo), Some(rest)) => Some([16 * hi + lo] + rest)
      case _ => None
  }

  /** The 32 bytes that are read as digits, when the length is one of the two accepted ones. */
  function Digits(src: Text): (digits: Option<Text>)
    ensures digits.Some? <==> |src| == 36 || |src| == 32
  {
    if |src| == 36 then Some(src[0..8] + src[9..13] + src[14..18] + src[19..23] + src[24..])
    else if |src| == 32 then Some(src)
    else None
  }

  /** `parseUUID`: the 16 bytes, or nothing when the text is rejected. */
  function Parse(src: Text): Option<Uuid> {
    match Digits(src)
    case Some(digits) => DecodeHex(digits)
    case None => None
  }

  /** `parseUUID` and `parsePGUUID`; a rejected text leaves the zero bytes and the flag `false`. */
  method ParsePGUUID(src: Text) returns (bytes: Uuid, valid: bool)
    ensures valid <==> (|src| == 36 || |src| == 32) && AllHex(Digits(src).value)
    ensures valid ==> Spells(Digits(src).value, bytes) && Parse(src) == Some(bytes)
    ensures !valid ==> bytes == NIL_UUID && Parse(src).None?
  {
    var text := src;
    bytes, valid := NIL_UUID, false;
    if |text| == 36 {
      text := text[0..8] + text[9..13] + text[14..18] + text[19..23] + text[24..];
    } else if |text| != 32 {
      return;
    }
    DecodeHexSpec(text);
    var buf := DecodeHex(text);
    if buf.Some? {
      bytes, valid := buf.value, true;
    }
  }

  /** The sixteen digits in order, in either case. */
  lemma HexDigits(i: nat)
    requires i < 16
    ensures HexValue("0123456789abcdef"[i] as int) == HexValue("0123456789ABCDEF"[i] as int) == Some(i)
  {
  }

  /** Of the 36-byte form all positions but the four separators are read, in order. */
  lemma DigitsInOrder(src: Text, k: nat)
    requires |src| == 36 && k < 32
    ensures Digits(src).Some? && |Digits(src).value| == 32
    ensures Digits(src).value[k] ==
      src[k + if k < 8 then 0 else if k < 12 then 1 else if k < 16 then 2 else if k < 20 then 3 else 4]
  {
  }

  ghost predicate AllHex(s: Text) {
    forall i :: 0 <= i < |s| ==> HexValue(s[i]).Some?
  }

  /** `s` writes `bytes` in hexadecimal, each digit in either letter case. */
  ghost predicate Spells(s: Text, bytes: seq<Byte>) {
    && |s| == 2 * |bytes|
    && forall i :: 0 <= i < |bytes| ==>
      HexValue(s[2 * i]) == Some(bytes[i] / 16) && HexValue(s[2 * i + 1]) == Some(bytes[i] % 16)
  }

  /** Decoding succeeds exactly on an even number of digits, and yields the bytes they spell. */
  lemma {:induction false} DecodeHexSpec(s: Text)
    ensures DecodeHex(s).Some? <==> |s| % 2 == 0 && AllHex(s)
    ensures DecodeHex(s).Some? ==> Spells(s, DecodeHex(s).value)
  {
    if |s| < 2 {
      DecodeShort(s);
    } else {
      hide *;
      DecodeHexSpec(s[2..]);
      DecodeStep(s);
      AllHexStep(s);
      if DecodeHex(s).Some? {
        SpellsStep(s, DecodeHex(s[2..]).value);
      }
    }
  }

  lemma DecodeShort(s: Text)
    requires |s| < 2
    ensures DecodeHex(s) == if s == [] then Some([]) else None
    ensures AllHex([]) && Spells([], [])
  {
  }

  lemma DecodeStep(s: Text)
    requires |s| >= 2
    ensures DecodeHex(s) ==
      if HexValue(s[0]).Some? && HexValue(s[1]).Some? && DecodeHex(s[2..]).Some? then
        Some([16 * HexValue(s[0]).value + HexValue(s[1]).value] + DecodeHex(s[2..]).value)
      else None
  {
    hide HexValue;
  }

  lemma AllHexStep(s: Text)
    requires |s| >= 2
    ensures AllHex(s) <==> HexValue(s[0]).Some? && HexValue(s[1]).Some? && AllHex(s[2..])
  {
    var rest := s[2..];
    hide HexValue;
    assert forall i :: 2 <= i < |s| ==> s[i] == rest[i - 2];
    assert forall i :: 0 <= i < |rest| ==> rest[i] == s[i + 2];
  }

  lemma SpellsStep(s: Text, bytes: seq<Byte>)
    requires |s| >= 2 && HexValue(s[0]).Some? && HexValue(s[1]).Some? && Spells(s[2..], bytes)
    ensures Spells(s, [16 * HexValue(s[0]).value + HexValue(s[1]).value] + bytes)
  {
    var rest, hi, lo := s[2..], HexValue(s[0]).value, HexValue(s[1]).value;
    var all := [16 * hi + lo] + bytes;
    hide HexValue;
    forall i | 0 <= i < |all|
      ensures HexValue(s[2 * i]) == Some(all[i] / 16) && HexValue(s[2 * i + 1]) == Some(all[i] % 16)
    {
      if i > 0 {
        assert s[2 * i] == rest[2 * (i - 1)] && s[2 * i + 1] == rest[2 * (i - 1) + 1];
        assert all[i] == bytes[i - 1];
      }
    }
  }

  /** Digits spell at most one byte string. */
  lemma SpellsUnique(s: Text, a: seq<Byte>, b: seq<Byte>)
    requires Spells(s, a) && Spells(s, b)
    ensures a == b
  {
    forall i | 0 <= i < |a| ensures a[i] == b[i] {
      assert HexValue(s[2 * i]) == Some(a[i] / 16);
      assert HexValue(s[2 * i]) == Some(b[i] / 16);
    }
  }

  /** Whatever the case of the digits, a text whose digits spell `bytes` parses back to `bytes`. */
  lemma ParseInvertsSpelling(src: Text, bytes: Uuid)
    requires Digits(src).Some? && Spells(Digits(src).value, bytes)
    ensures Parse(src) == Some(bytes)
  {
    var digits := Digits(src).value;
    forall i | 0 <= i < |digits| ensures HexValue(digits[i]).Some? {
      var k := i / 2;
      assert HexValue(digits[2 * k]).Some? && HexValue(digits[2 * k + 1]).Some?;
      assert i == 2 * k || i == 2 * k + 1;
    }
    DecodeHexSpec(digits);
    SpellsUnique(digits, DecodeHex(digits).value, bytes);
  }

  function HexDigit(n: nat, upper: bool): (c: Byte)
    requires n < 16
    ensures HexValue(c) == Some(n)
  {
    if n < 10 then '0' as int + n
    else if upper then 'A' as int + n - 10
    else 'a' as int + n - 10
  }

  function PrintedDigit(bytes: Uuid, upper: nat -> bool, i: nat): Byte
    requires i < 32
  {
    var b := bytes[i / 2];
    HexDigit(if i % 2 == 0 then b / 16 else b % 16, upper(i))
  }

  /** The undashed form; `upper` chooses the case of each digit. */
  function Undashed(bytes: Uuid, upper: nat -> bool): (s: Text)
    ensures |s| == 32
  {
    seq(32, i requires 0 <= i < 32 => PrintedDigit(bytes, upper, i))
  }

  lemma UndashedSpells(bytes: Uuid, upper: nat -> bool)
    ensures Spells(Undashed(bytes, upper), bytes)
  {
    var s := Undashed(bytes, upper);
    forall i | 0 <= i < 16
      ensures HexValue(s[2 * i]) == Some(bytes[i] / 16) && HexValue(s[2 * i + 1]) == Some(bytes[i] % 16)
    {
      assert s[2 * i] == PrintedDigit(bytes, upper, 2 * i) && s[2 * i + 1] == PrintedDigit(bytes, upper, 2 * i + 1);
    }
  }

  /** The dashed form of section 3 of RFC 4122: dashes after 8, 12, 16 and 20 digits. */
  function WithDashes(s: Text): (d: Text)
    requires |s| == 32
    ensures |d| == 36 && d[8] == d[13] == d[18] == d[23] == '-' as int
  {
    var dash := '-' as int;
    seq(36, i requires 0 <= i < 36 =>
      if i < 8 then s[i] else if i == 8 then dash
      else if i < 13 then s[i - 1] else if i == 13 then dash
      else if i < 18 then s[i - 2] else if i == 18 then dash
      else if i < 23 then s[i - 3] else if i == 23 then dash
      else s[i - 4])
  }

  lemma DashedDigits(s: Text)
    requires |s| == 32
    ensures Digits(WithDashes(s)) == Some(s)
  {
    var d := WithDashes(s);
    assert d[0..8] == s[..8] && d[9..13] == s[8..12] && d[14..18] == s[12..16];
    assert d[19..23] == s[16..20] && d[24..] == s[20..];
    assert s == s[..20] + s[20..] && s[..20] == s[..16] + s[16..20];
    assert s[..16] == s[..12] + s[12..16] && s[..12] == s[..8] + s[8..12];
  }

  /** Both printed forms of any 16 bytes, in any mix of letter cases, parse back to those bytes. */
  lemma ParseInvertsBothForms(bytes: Uuid, upper: nat -> bool)
    ensures Parse(Undashed(bytes, upper)) == Some(bytes)
    ensures Parse(WithDashes(Undashed(bytes, upper))) == Some(bytes)
  {
    var s := Undashed(bytes, upper);
    UndashedSpells(bytes, upper);
    ParseInvertsSpelling(s, bytes);
    DashedDigits(s);
    ParseInvertsSpelling(WithDashes(s), bytes);
  }

  /** In the 36-byte form the four separator positions are never looked at. */
  lemma SeparatorsAreIgnored(a: Text, b: Text)
    requires |a| == |b| == 36
    requires forall i :: 0 <= i < 36 && i !in {8, 13, 18, 23} ==> a[i] == b[i]
    ensures Parse(a) == Parse(b)
  {
    assert Digits(a).value == Digits(b).value;
  }
}
