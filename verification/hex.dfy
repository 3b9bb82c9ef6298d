/** Python's `f"#{c:06x}"`: the colour encoding used both when classifying
    spans (utils/parser_augustin.py) and when reading the issue colour from the
    cover page (parsers/extract_page_0.py). */
module Hex {
  import opened Results

  predicate IsHexDigit(c: char)
  {
    '0' <= c <= '9' || 'a' <= c <= 'f'
  }

  function HexDigit(d: nat): (c: char)
    requires d < 16
    ensures IsHexDigit(c)
  {
    if d < 10 then ('0' as int + d) as char else ('a' as int + d - 10) as char
  }

  function HexValue(c: char): (v: nat)
    requires IsHexDigit(c)
    ensures v < 16 && HexDigit(v) == c
  {
    if c <= '9' then c as int - '0' as int else c as int - 'a' as int + 10
  }

  predicate AllHex(s: string)
  {
    forall k :: 0 <= k < |s| ==> IsHexDigit(s[k])
  }

  /** `format(n, "x")`: lowercase hexadecimal without leading zeros ("0" for 0). */
  function ToHex(n: nat): (r: string)
    ensures |r| >= 1 && AllHex(r)
  {
    if n < 16 then [HexDigit(n)] else ToHex(n / 16) + [HexDigit(n % 16)]
  }

  /** The value of a string of hexadecimal digits, most significant first. */
  function FromHex(s: string): nat
    requires AllHex(s)
  {
    if s == [] then 0 else FromHex(s[..|s| - 1]) * 16 + HexValue(s[|s| - 1])
  }

  /** Left-pads with '0' to at least `width` characters, as the `0` flag does. */
  function ZeroPad(s: string, width: nat): string
  {
    if |s| < width then seq(width - |s|, _ => '0') + s else s
  }

  /** `f"#{c:06x}"`. Python puts a negative number's sign before the zero
      padding and counts it in the width, so -5 becomes "#-00005". */
  function FormatHex06(c: int): (r: string)
    ensures |r| >= 7 && r[0] == '#'
    ensures c >= 0 ==> AllHex(r[1..])
    ensures c < 0 ==> r[1] == '-' && AllHex(r[2..])
  {
    if c >= 0 then
      FromHexZeroPad(c, 6);
      "#" + ZeroPad(ToHex(c), 6)
    else
      FromHexZeroPad(-c, 5);
      "#" + "-" + ZeroPad(ToHex(-c), 5)
  }

  /** Reads back a "#" followed by hexadecimal digits. */
  function ParseHexColor(s: string): Option<nat>
  {
    if |s| >= 2 && s[0] == '#' && AllHex(s[1..]) then Some(FromHex(s[1..])) else None
  }

  lemma {:induction false} FromHexToHex(n: nat)
    ensures FromHex(ToHex(n)) == n
  {
    if n >= 16 {
      var h := ToHex(n / 16);
      assert (h + [HexDigit(n % 16)])[..|h|] == h;
      FromHexToHex(n / 16);
    }
  }

  lemma {:induction false} FromHexLeadingZeros(z: nat, s: string)
    requires AllHex(s)
    ensures AllHex(seq(z, _ => '0') + s)
    ensures FromHex(seq(z, _ => '0') + s) == FromHex(s)
  {
    var zs: string := seq(z, _ => '0');
    if s == [] {
      assert zs + s == zs;
      if z > 0 {
        FromHexLeadingZeros(z - 1, s);
        assert zs[..z - 1] == seq(z - 1, _ => '0') + s;
        assert zs[z - 1] == '0';
      }
    } else {
      var init := s[..|s| - 1];
      FromHexLeadingZeros(z, init);
      assert (zs + s)[..|zs + s| - 1] == zs + init;
    }
  }

  lemma FromHexZeroPad(n: nat, width: nat)
    ensures AllHex(ZeroPad(ToHex(n), width))
    ensures FromHex(ZeroPad(ToHex(n), width)) == n
  {
    FromHexToHex(n);
    if |ToHex(n)| < width {
      FromHexLeadingZeros(width - |ToHex(n)|, ToHex(n));
    }
  }

  function Pow16(k: nat): nat
  {
    if k == 0 then 1 else 16 * Pow16(k - 1)
  }

  lemma {:induction false} ToHexLength(n: nat, k: nat)
    requires 1 <= k && n < Pow16(k)
    ensures |ToHex(n)| <= k
  {
    if n >= 16 {
      assert k >= 2;
      ToHexLength(n / 16, k - 1);
    }
  }

  /** Decoding the formatted colour gives back the colour, for every
      non-negative colour. */
  lemma FormatHex06RoundTrip(c: nat)
    ensures ParseHexColor(FormatHex06(c)) == Some(c)
  {
    FromHexZeroPad(c, 6);
    assert FormatHex06(c)[1..] == ZeroPad(ToHex(c), 6);
  }

  /** A 24-bit colour is always written as exactly seven characters. */
  lemma FormatHex06Width(c: int)
    requires 0 <= c < 0x100_0000
    ensures |FormatHex06(c)| == 7
  {
    assert Pow16(6) == 0x100_0000;
    ToHexLength(c, 6);
  }

  /** The character after "#" tells the sign: '-' exactly for negative colours. */
  lemma FormatHex06Sign(c: int)
    ensures |FormatHex06(c)| >= 2
    ensures FormatHex06(c)[1] == '-' <==> c < 0
  {
    if c >= 0 {
      var p := ZeroPad(ToHex(c), 6);
      FromHexZeroPad(c, 6);
      assert FormatHex06(c)[1] == p[0];
      assert IsHexDigit(p[0]);
    }
  }

  lemma InjectiveNonNegative(a: nat, b: nat)
    requires FormatHex06(a) == FormatHex06(b)
    ensures a == b
  {
    FormatHex06RoundTrip(a);
    FormatHex06RoundTrip(b);
  }

  /** The digits after "#-" give back the magnitude of a negative colour. */
  lemma NegativeDigits(c: int)
    requires c < 0
    ensures AllHex(FormatHex06(c)[2..]) && FromHex(FormatHex06(c)[2..]) == -c
  {
    var p := ZeroPad(ToHex(-c), 5);
    assert FormatHex06(c) == "#-" + p;
    assert FormatHex06(c)[2..] == p;
    FromHexZeroPad(-c, 5);
  }

  /** Different colours never share a code. */
  lemma FormatHex06Injective(a: int, b: int)
    requires FormatHex06(a) == FormatHex06(b)
    ensures a == b
  {
    FormatHex06Sign(a);
    FormatHex06Sign(b);
    if a >= 0 {
      InjectiveNonNegative(a, b);
    } else {
      NegativeDigits(a);
      NegativeDigits(b);
    }
  }

  /** The first colour code asserted by parsers/test_extract_page_0.py. */
  lemma IssueColourExample()
    ensures FormatHex06(0xe7534a) == "#e7534a"
  {
    assert ToHex(0xe) == "e";
    assert ToHex(0xe7) == "e7";
    assert ToHex(0xe75) == "e75";
    assert ToHex(0xe753) == "e753";
    assert ToHex(0xe7534) == "e7534";
    assert ToHex(0xe7534a) == "e7534a";
  }
}
