/**
 * The `toHex` helper of js/auth.js: it renders the bytes of a buffer as
 * lowercase hexadecimal, two digits per byte, padding a one-digit byte with
 * a leading '0'. `FromHex` reads such a string back two characters at a time.
 */
module HexCodec {
  import opened Options

  /** One element of the `Uint8Array` view of the buffer. */
  type byte = b: int | 0 <= b < 256

  predicate IsHexDigit(c: char) {
    '0' <= c <= '9' || 'a' <= c <= 'f'
  }

  /** The value of a lowercase hexadecimal digit, or None for any other character. */
  function DigitValue(c: char): (v: Option<int>)
    ensures v.Some? <==> IsHexDigit(c)
    ensures v.Some? ==> 0 <= v.value < 16
  {
    if '0' <= c <= '9' then Some(c as int - '0' as int)
    else if 'a' <= c <= 'f' then Some(c as int - 'a' as int + 10)
    else None
  }

  /** The lowercase hexadecimal digit of a value below 16. */
  function HexDigit(d: int): (c: char)
    requires 0 <= d < 16
    ensures IsHexDigit(c) && DigitValue(c) == Some(d)
  {
    if d < 10 then ('0' as int + d) as char else ('a' as int + (d - 10)) as char
  }

  /** A lowercase hexadecimal digit is the digit of its own value. */
  lemma DigitRoundTrip(c: char)
    requires IsHexDigit(c)
    ensures HexDigit(DigitValue(c).value) == c
  {
  }

  /** Two lowercase hexadecimal digits are the text of the byte they denote. */
  lemma DigitPair(hi: char, lo: char)
    requires IsHexDigit(hi) && IsHexDigit(lo)
    ensures 0 <= DigitValue(hi).value * 16 + DigitValue(lo).value < 256
    ensures ByteHex(DigitValue(hi).value * 16 + DigitValue(lo).value) == [hi, lo]
  {
    var h, l := DigitValue(hi).value, DigitValue(lo).value;
    assert (h * 16 + l) / 16 == h && (h * 16 + l) % 16 == l;
    DigitRoundTrip(hi);
    DigitRoundTrip(lo);
  }

  /** A byte as JavaScript's toString(16) renders it: base 16, lowercase, no leading zero. */
  function Base16(b: byte): (h: string)
    ensures |h| == 1 <==> b < 16
    ensures |h| == 2 <==> b >= 16
    ensures |h| == 2 ==> h[0] != '0'
    ensures DigitValue(h[|h| - 1]) == Some(b % 16)
    ensures |h| == 2 ==> DigitValue(h[0]) == Some(b / 16)
  {
    if b < 16 then [HexDigit(b)] else [HexDigit(b / 16), HexDigit(b % 16)]
  }

  /** One byte as the loop body writes it: `Base16`, with a '0' put in front of a single digit. */
  function ByteHex(b: byte): (h: string)
    ensures h == [HexDigit(b / 16), HexDigit(b % 16)]
    ensures DigitValue(h[0]) == Some(b / 16) && DigitValue(h[1]) == Some(b % 16)
    ensures h[0] == '0' <==> b < 16
  {
    var h := Base16(b);
    if |h| == 1 then "0" + h else h
  }

  /** The hexadecimal text of a byte sequence, first byte first. */
  function Hex(bytes: seq<byte>): (s: string)
    ensures |s| == 2 * |bytes|
  {
    if bytes == [] then "" else ByteHex(bytes[0]) + Hex(bytes[1..])
  }

  /** Reads a string two characters at a time; None unless it is an even number of lowercase hex digits. */
  function FromHex(s: string): (r: Option<seq<byte>>)
    ensures r.Some? ==> |s| == 2 * |r.value|
    decreases |s|
  {
    if s == [] then Some([])
    else if |s| < 2 then None
    else
      var hi, lo := DigitValue(s[0]), DigitValue(s[1]);
      if hi.None? || lo.None? then None
      else
        match FromHex(s[2..])
        case None => None
        case Some(rest) => Some([hi.value * 16 + lo.value] + rest)
  }

  /** The text of a concatenation is the concatenation of the texts. */
  lemma {:induction false} HexConcat(a: seq<byte>, b: seq<byte>)
    ensures Hex(a + b) == Hex(a) + Hex(b)
  {
    if a == [] {
      assert a + b == b;
    } else {
      assert (a + b)[1..] == a[1..] + b;
      HexConcat(a[1..], b);
    }
  }

  /** Appending one byte appends its two digits: the step the loop of `ToHex` takes. */
  lemma HexSnoc(bytes: seq<byte>, b: byte)
    ensures Hex(bytes + [b]) == Hex(bytes) + ByteHex(b)
  {
    HexConcat(bytes, [b]);
    assert [b][1..] == [];
  }

  /** The loop's step, stated on prefixes of the byte view. */
  lemma HexPrefixStep(view: seq<byte>, i: nat)
    requires i < |view|
    ensures Hex(view[..i + 1]) == Hex(view[..i]) + ByteHex(view[i])
  {
    assert view[..i + 1] == view[..i] + [view[i]];
    HexSnoc(view[..i], view[i]);
  }

  /** What the loop has built once it has seen every byte. */
  lemma HexWhole(view: seq<byte>)
    ensures view[..|view|] == view
    ensures |Hex(view[..|view|])| == 2 * |view|
    ensures FromHex(Hex(view[..|view|])) == Some(view)
  {
    assert view[..|view|] == view;
    FromHexHex(view);
  }

  /** Characters 2k and 2k+1 of the text are the two digits of byte k, the first being '0' exactly when the byte is below 16. */
  lemma HexAt(bytes: seq<byte>, k: nat)
    requires k < |bytes|
    ensures |Hex(bytes)| == 2 * |bytes|
    ensures Hex(bytes)[2 * k..2 * k + 2] == ByteHex(bytes[k])
    ensures DigitValue(Hex(bytes)[2 * k]) == Some(bytes[k] / 16)
    ensures DigitValue(Hex(bytes)[2 * k + 1]) == Some(bytes[k] % 16)
    ensures Hex(bytes)[2 * k] == '0' <==> bytes[k] < 16
  {
    var pre, b, post := bytes[..k], bytes[k], bytes[k + 1..];
    assert bytes == pre + [b] + post;
    HexConcat(pre + [b], post);
    HexConcat(pre, [b]);
    assert Hex([b]) == ByteHex(b) by {
      assert [b][1..] == [];
    }
    var h := Hex(bytes);
    assert h == Hex(pre) + ByteHex(b) + Hex(post);
    assert h[2 * k..2 * k + 2] == ByteHex(b);
    assert h[2 * k] == ByteHex(b)[0] && h[2 * k + 1] == ByteHex(b)[1];
  }

  /** Every character of the text is a lowercase hexadecimal digit. */
  lemma {:induction false} HexLowercase(bytes: seq<byte>)
    ensures forall i :: 0 <= i < |Hex(bytes)| ==> IsHexDigit(Hex(bytes)[i])
  {
    if bytes != [] {
      var h, rest := ByteHex(bytes[0]), Hex(bytes[1..]);
      HexLowercase(bytes[1..]);
      assert IsHexDigit(h[0]) && IsHexDigit(h[1]);
      assert Hex(bytes) == h + rest;
    }
  }

  /** Decoding the text gives back the bytes. */
  lemma {:induction false} FromHexHex(bytes: seq<byte>)
    ensures FromHex(Hex(bytes)) == Some(bytes)
  {
    if bytes != [] {
      var b, rest := bytes[0], bytes[1..];
      var s := Hex(bytes);
      assert s == ByteHex(b) + Hex(rest);
      assert s[2..] == Hex(rest);
      FromHexHex(rest);
      assert DigitValue(s[0]).value * 16 + DigitValue(s[1]).value == b;
      assert [b] + rest == bytes;
    }
  }

  /** Encoding what decoding accepted gives back the string. */
  lemma {:induction false} HexFromHex(s: string)
    requires FromHex(s).Some?
    ensures Hex(FromHex(s).value) == s
  {
    if s != [] {
      var b: byte := DigitValue(s[0]).value * 16 + DigitValue(s[1]).value;
      var rest := FromHex(s[2..]).value;
      assert FromHex(s).value == [b] + rest;
      HexFromHex(s[2..]);
      DigitPair(s[0], s[1]);
      assert s == [s[0], s[1]] + s[2..];
    }
  }

  /** Distinct byte sequences have distinct texts. */
  lemma HexInjective(a: seq<byte>, b: seq<byte>)
    ensures Hex(a) == Hex(b) <==> a == b
  {
    FromHexHex(a);
    FromHexHex(b);
  }

  /** `toHex`: the loop over the byte view that appends each byte's two digits. */
  method ToHex(view: seq<byte>) returns (hex: string)
    ensures hex == Hex(view)
    ensures |hex| == 2 * |view|
    ensures FromHex(hex) == Some(view)
  {
    hex := "";
    for i := 0 to |view|
      invariant hex == Hex(view[..i])
    {
      var h := Base16(view[i]);
      if |h| == 1 {
        h := "0" + h;
      }
      HexPrefixStep(view, i);
      hex := hex + h;
    }
    HexWhole(view);
  }
}
