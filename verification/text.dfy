/** The pieces of Python string handling the generator relies on:
    `''.join`, `sep.join`, integer formatting (`{n}`, `{n:2d}`, `{n:02X}`),
    `str.rstrip`, and reading `0xHH` byte tokens back. */
module Text {
  import opened Common

  /** `sep.join(items)`. */
  function JoinWith(items: seq<string>, sep: string): string
  {
    if |items| == 0 then ""
    else if |items| == 1 then items[0]
    else items[0] + sep + JoinWith(items[1..], sep)
  }

  /** Every item followed by `sep`. */
  function Suffixed(items: seq<string>, sep: string): seq<string>
  {
    seq(|items|, i requires 0 <= i < |items| => items[i] + sep)
  }

  /** `sep.join(items) + sep` is every item followed by `sep`, concatenated. */
  lemma {:induction false} JoinThenSep(items: seq<string>, sep: string)
    requires items != []
    ensures JoinWith(items, sep) + sep == Concat(Suffixed(items, sep))
  {
    var suffixed := Suffixed(items, sep);
    if |items| == 1 {
      assert suffixed[1..] == [];
    } else {
      JoinThenSep(items[1..], sep);
      assert suffixed[1..] == Suffixed(items[1..], sep);
    }
  }

  /** Items of one common length `width` joined by `sep` take `width` per
      item and `|sep|` per gap. */
  lemma {:induction false} JoinUniformLength(items: seq<string>, sep: string, width: nat)
    requires items != []
    requires forall i :: 0 <= i < |items| ==> |items[i]| == width
    ensures |JoinWith(items, sep)| == |items| * width + (|items| - 1) * |sep|
  {
    if |items| > 1 {
      JoinUniformLength(items[1..], sep, width);
      assert |items| * width == width + (|items| - 1) * width;
      assert (|items| - 1) * |sep| == |sep| + (|items| - 2) * |sep|;
    }
  }

  /** ... and item `k` starts `k * (width + |sep|)` characters in. */
  lemma {:induction false} JoinUniformAt(items: seq<string>, sep: string, width: nat, k: nat)
    requires forall i :: 0 <= i < |items| ==> |items[i]| == width
    requires k < |items|
    ensures k * (width + |sep|) + width <= |JoinWith(items, sep)|
    ensures JoinWith(items, sep)[k * (width + |sep|) .. k * (width + |sep|) + width] == items[k]
  {
    if k > 0 {
      var step := width + |sep|;
      JoinCons(items, sep);
      JoinUniformAt(items[1..], sep, width, k - 1);
      MulSucc(k, step);
      SliceAfter(items[0] + sep, JoinWith(items[1..], sep), (k - 1) * step, width);
    } else if |items| > 1 {
      JoinCons(items, sep);
    }
  }

  /** The first item, the separator, then the rest joined. */
  lemma JoinCons(items: seq<string>, sep: string)
    requires |items| > 1
    ensures JoinWith(items, sep) == (items[0] + sep) + JoinWith(items[1..], sep)
  {
  }

  /** One more item at the end. */
  lemma {:induction false} JoinSnoc(items: seq<string>, last: string, sep: string)
    requires items != []
    ensures JoinWith(items + [last], sep) == JoinWith(items, sep) + sep + last
  {
    if |items| > 1 {
      assert (items + [last])[1..] == items[1..] + [last];
      JoinSnoc(items[1..], last, sep);
    } else {
      assert (items + [last])[1..] == [last];
    }
  }

  /** How often `c` occurs in `s`. */
  function Occurrences(s: string, c: char): nat
  {
    if s == [] then 0 else (if s[0] == c then 1 else 0) + Occurrences(s[1..], c)
  }

  lemma {:induction false} OccurrencesAppend(a: string, b: string, c: char)
    ensures Occurrences(a + b, c) == Occurrences(a, c) + Occurrences(b, c)
  {
    if a != [] {
      assert (a + b)[1..] == a[1..] + b;
      OccurrencesAppend(a[1..], b, c);
    } else {
      assert a + b == b;
    }
  }

  /** A character the separator does not contain occurs in the joined text
      exactly as often as in the items. */
  lemma {:induction false} JoinCount(items: seq<string>, sep: string, c: char)
    requires Occurrences(sep, c) == 0
    ensures Occurrences(JoinWith(items, sep), c) == Occurrences(Concat(items), c)
  {
    if |items| > 1 {
      JoinCount(items[1..], sep, c);
      JoinCons(items, sep);
      OccurrencesAppend(items[0] + sep, JoinWith(items[1..], sep), c);
      OccurrencesAppend(items[0], sep, c);
      OccurrencesAppend(items[0], Concat(items[1..]), c);
    } else if |items| == 1 {
      assert Concat(items) == items[0] + [];
      assert items[0] + [] == items[0];
    }
  }

  /** One digit of a numeral in a base up to 16, upper case as `X` formats it. */
  function Digit(d: nat): char
    requires d < 16
  {
    if d < 10 then ('0' as int + d) as char else ('A' as int + d - 10) as char
  }

  /** The numeral of `n` in `base`, without sign or leading zeros. */
  function Numeral(n: nat, base: nat): string
    requires 2 <= base <= 16
    decreases n
  {
    if n < base then [Digit(n)] else Numeral(n / base, base) + [Digit(n % base)]
  }

  /** A numeral is made of digits, so it holds no comma. */
  lemma {:induction false} NumeralNoComma(n: nat, base: nat)
    requires 2 <= base <= 16
    ensures ',' !in Numeral(n, base)
    decreases n
  {
    if n >= base {
      DivShrinks(n, base);
      NumeralNoComma(n / base, base);
      DigitNotComma(n % base);
    } else {
      DigitNotComma(n);
    }
  }

  lemma DivShrinks(n: nat, base: nat)
    requires 2 <= base <= n
    ensures n / base < n
  {
    DivBelow(n, base);
    MulAtLeastDouble(n / base, base);
  }

  lemma DivBelow(n: nat, base: nat)
    requires base > 0
    ensures (n / base) * base <= n
  {
    assert n == (n / base) * base + n % base;
  }

  lemma MulAtLeastDouble(q: nat, base: nat)
    requires base >= 2
    ensures q * base >= 2 * q
  {
    assert q * base == 2 * q + q * (base - 2);
  }

  lemma DigitNotComma(d: nat)
    requires d < 16
    ensures Digit(d) != ','
  {
  }

  /** `f"{n}"`. */
  function Decimal(n: nat): string
  {
    Numeral(n, 10)
  }

  /** A format width pads on the left: `f"{n:2d}"` is `PadLeft(Decimal(n), 2, ' ')`. */
  function PadLeft(s: string, width: nat, fill: char): (r: string)
    ensures |r| == Max(|s|, width)
    ensures r[|r| - |s|..] == s
    ensures forall i :: 0 <= i < |r| - |s| ==> r[i] == fill
  {
    if |s| >= width then s else seq(width - |s|, _ => fill) + s
  }

  /** Padding with a character other than a comma adds no comma. */
  lemma PadNoComma(s: string, width: nat, fill: char)
    requires ',' !in s && fill != ','
    ensures ',' !in PadLeft(s, width, fill)
  {
    if |s| < width {
      var padding := seq(width - |s|, _ => fill);
      assert ',' !in padding;
      assert PadLeft(s, width, fill) == padding + s;
    }
  }

  /** A number below 100 has at most two decimal digits, so `{n:2d}` is two
      characters wide exactly when `n < 100`. */
  lemma DecimalWidth(n: nat)
    ensures n < 10 ==> |Decimal(n)| == 1
    ensures 10 <= n < 100 ==> |Decimal(n)| == 2
    ensures 100 <= n ==> |Decimal(n)| >= 3
  {
    if n >= 10 {
      DecimalWidth(n / 10);
    }
  }

  /** A byte has at most two hexadecimal digits. */
  lemma HexWidth(n: nat)
    requires n < 256
    ensures Hex02(n) == [Digit(n / 16), Digit(n % 16)]
  {
    if n < 16 {
      assert Numeral(n, 16) == [Digit(n)];
    } else {
      assert Numeral(n / 16, 16) == [Digit(n / 16)];
    }
  }

  /** `f"{n:02X}"`: upper-case hexadecimal, zero-padded to two digits. */
  function Hex02(n: nat): string
  {
    PadLeft(Numeral(n, 16), 2, '0')
  }

  /** The value of one upper-case hexadecimal digit. */
  function HexValue(c: char): (r: Option<nat>)
    ensures r.Some? ==> r.value < 16 && Digit(r.value) == c
  {
    if '0' <= c <= '9' then Some(c as int - '0' as int)
    else if 'A' <= c <= 'F' then Some(c as int - 'A' as int + 10)
    else None
  }

  /** Reads the two digits `HH` of a byte token. */
  function ParseHexByte(s: string): Option<bv8>
  {
    if |s| != 2 then None
    else match (HexValue(s[0]), HexValue(s[1]))
      case (Some(hi), Some(lo)) => Some((hi * 16 + lo) as bv8)
      case _ => None
  }

  /** The two upper-case hexadecimal digits of a byte, high nibble first. */
  function HexDigits(b: bv8): string
  {
    [Digit((b >> 4) as int), Digit((b & 15) as int)]
  }

  /** A byte's two digits are exactly what `{b:02X}` prints. */
  lemma HexDigitsFormat(b: bv8)
    ensures HexDigits(b) == Hex02(b as int)
  {
    Nibbles(b);
    HexWidth(b as int);
  }

  /** The nibbles of a byte are its quotient and remainder by 16. */
  lemma Nibbles(b: bv8)
    ensures (b >> 4) as int == b as int / 16
    ensures (b & 15) as int == b as int % 16
  {
  }

  /** A byte's two digits read back to the byte. */
  lemma HexByteRoundTrip(b: bv8)
    ensures ParseHexByte(HexDigits(b)) == Some(b)
  {
    var hi, lo := (b >> 4) as int, (b & 15) as int;
    Nibbles(b);
    ParseDigitPair(hi, lo);
    assert hi * 16 + lo == b as int;
  }

  /** Two digits read back to the number they spell. */
  lemma ParseDigitPair(hi: nat, lo: nat)
    requires hi < 16 && lo < 16
    ensures ParseHexByte([Digit(hi), Digit(lo)]) == Some((hi * 16 + lo) as bv8)
  {
    DigitValue(hi);
    DigitValue(lo);
  }

  lemma DigitValue(d: nat)
    requires d < 16
    ensures HexValue(Digit(d)) == Some(d)
  {
  }

  /** The token `0x{b:02X}` of a byte followed by `sep`. */
  function HexToken(b: bv8, sep: string): string
  {
    "0x" + HexDigits(b) + sep
  }

  lemma TokenLength(b: bv8, sep: string)
    ensures |HexToken(b, sep)| == 4 + |sep|
  {
  }

  /** `HexToken` is the formatted token `0x{b:02X}` followed by `sep`. */
  lemma HexTokenFormat(b: bv8, sep: string)
    ensures HexToken(b, sep) == "0x" + Hex02(b as int) + sep
  {
    HexDigitsFormat(b);
  }

  function HexTokens(bytes: seq<bv8>, sep: string): seq<string>
  {
    seq(|bytes|, i requires 0 <= i < |bytes| => HexToken(bytes[i], sep))
  }

  /** Tokens without a separator, each followed by `sep`, are the tokens
      with separator `sep`. */
  lemma SuffixedTokens(bytes: seq<bv8>, sep: string)
    ensures Suffixed(HexTokens(bytes, ""), sep) == HexTokens(bytes, sep)
  {
    forall i | 0 <= i < |bytes|
      ensures Suffixed(HexTokens(bytes, ""), sep)[i] == HexTokens(bytes, sep)[i]
    {
      assert HexToken(bytes[i], "") + sep == HexToken(bytes[i], sep);
    }
  }

  lemma HexTokensAppend(a: seq<bv8>, b: seq<bv8>, sep: string)
    ensures HexTokens(a + b, sep) == HexTokens(a, sep) + HexTokens(b, sep)
    ensures Concat(HexTokens(a + b, sep)) == Concat(HexTokens(a, sep)) + Concat(HexTokens(b, sep))
  {
    assert HexTokens(a + b, sep) == HexTokens(a, sep) + HexTokens(b, sep);
    ConcatAppend(HexTokens(a, sep), HexTokens(b, sep));
  }

  /** Every token is `4 + |sep|` characters, so `n` of them take `n * (4 + |sep|)`. */
  lemma TokensLength(bytes: seq<bv8>, sep: string)
    ensures |Concat(HexTokens(bytes, sep))| == |bytes| * (4 + |sep|)
  {
    var tokens := HexTokens(bytes, sep);
    forall i | 0 <= i < |tokens|
      ensures |tokens[i]| == 4 + |sep|
    {
      TokenLength(bytes[i], sep);
    }
    ConcatUniformLength(tokens, 4 + |sep|);
  }

  /** Reads `count` tokens `0xHH`, each followed by `sep`, from the front of `s`. */
  function DecodeTokens(s: string, sep: string, count: nat): Option<seq<bv8>>
    decreases count
  {
    if count == 0 then Some([])
    else if |s| < 4 + |sep| || s[..2] != "0x" || s[4 .. 4 + |sep|] != sep then None
    else match (ParseHexByte(s[2..4]), DecodeTokens(s[4 + |sep|..], sep, count - 1))
      case (Some(b), Some(rest)) => Some([b] + rest)
      case _ => None
  }

  /** Writing bytes as tokens and reading them back gives the bytes, whatever follows. */
  lemma {:induction false} DecodeHexTokens(bytes: seq<bv8>, sep: string, tail: string)
    ensures DecodeTokens(Concat(HexTokens(bytes, sep)) + tail, sep, |bytes|) == Some(bytes)
  {
    if bytes != [] {
      var tokens := HexTokens(bytes, sep);
      assert tokens[1..] == HexTokens(bytes[1..], sep);
      var rest := Concat(tokens[1..]) + tail;
      calc {
        DecodeTokens(Concat(tokens) + tail, sep, |bytes|);
        { assert Concat(tokens) + tail == HexToken(bytes[0], sep) + rest; }
        DecodeTokens(HexToken(bytes[0], sep) + rest, sep, |bytes[1..]| + 1);
        { DecodeHexTokens(bytes[1..], sep, tail);
          DecodeStep(bytes[0], sep, rest, |bytes[1..]|, bytes[1..]); }
        Some([bytes[0]] + bytes[1..]);
        { assert [bytes[0]] + bytes[1..] == bytes; }
        Some(bytes);
      }
    }
  }

  /** One token read from the front. */
  lemma DecodeStep(b: bv8, sep: string, rest: string, count: nat, decoded: seq<bv8>)
    requires DecodeTokens(rest, sep, count) == Some(decoded)
    ensures DecodeTokens(HexToken(b, sep) + rest, sep, count + 1) == Some([b] + decoded)
  {
    var s := HexToken(b, sep) + rest;
    HexByteRoundTrip(b);
    assert s[..2] == "0x";
    assert s[2..4] == HexDigits(b);
    assert s[4 .. 4 + |sep|] == sep;
    assert s[4 + |sep|..] == rest;
  }

  /** The characters `str.isspace` accepts. */
  predicate IsSpace(c: char)
  {
    c == ' ' || '\t' <= c <= '\r' || '\U{1C}' <= c <= '\U{1F}' || c == '\U{85}' || c == '\U{A0}'
    || c == '\U{1680}' || '\U{2000}' <= c <= '\U{200A}' || c == '\U{2028}' || c == '\U{2029}'
    || c == '\U{202F}' || c == '\U{205F}' || c == '\U{3000}'
  }

  /** `s.rstrip()`: the longest prefix that does not end in white space. */
  function RStrip(s: string): (r: string)
    ensures |r| <= |s| && r == s[..|r|]
    ensures r != [] ==> !IsSpace(r[|r| - 1])
    ensures forall i :: |r| <= i < |s| ==> IsSpace(s[i])
    decreases |s|
  {
    if s != [] && IsSpace(s[|s| - 1]) then RStrip(s[..|s| - 1]) else s
  }
}
