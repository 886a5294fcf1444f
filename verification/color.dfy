/** Colour values: the RGB triple of the background key, `hexToRgb`, and the
    `#rrggbb` text `pickColor` builds from a sampled pixel. */
module Color {

  /** One 8-bit channel of an RGBA pixel buffer. */
  newtype byte = x: int | 0 <= x < 256

  datatype Rgb = Rgb(r: byte, g: byte, b: byte)

  /** The characters `[a-f\d]` matches when the pattern is case-insensitive. */
  predicate IsHexDigit(ch: char)
  {
    '0' <= ch <= '9' || 'a' <= ch <= 'f' || 'A' <= ch <= 'F'
  }

  function HexValue(ch: char): (v: int)
    requires IsHexDigit(ch)
    ensures 0 <= v < 16
  {
    if '0' <= ch <= '9' then ch as int - '0' as int
    else if 'a' <= ch <= 'f' then ch as int - 'a' as int + 10
    else ch as int - 'A' as int + 10
  }

  /** `s[from..]` consists of hex digits only. */
  predicate HexFrom(s: string, from: int)
  {
    forall i :: 0 <= i < |s| && from <= i ==> IsHexDigit(s[i])
  }

  /** `s` matches `^#?([a-f\d]{2})([a-f\d]{2})([a-f\d]{2})$` with the `i`
      flag: six hex digits, optionally preceded by one `#`, and nothing else. */
  predicate IsHexColor(s: string)
  {
    || (|s| == 6 && HexFrom(s, 0))
    || (|s| == 7 && s[0] == '#' && HexFrom(s, 1))
  }

  /** `parseInt` of a captured pair of hex digits. */
  function PairValue(hi: char, lo: char): (v: byte)
    requires IsHexDigit(hi) && IsHexDigit(lo)
  {
    (16 * HexValue(hi) + HexValue(lo)) as byte
  }

  /** `hexToRgb`: the three channels of a matching string, and black for
      anything else. */
  function HexToRgb(s: string): (c: Rgb)
    ensures !IsHexColor(s) ==> c == Rgb(0, 0, 0)
  {
    if IsHexColor(s) then
      var o := |s| - 6;
      Rgb(PairValue(s[o], s[o + 1]), PairValue(s[o + 2], s[o + 3]), PairValue(s[o + 4], s[o + 5]))
    else
      Rgb(0, 0, 0)
  }

  /** The digit `Number.prototype.toString(16)` writes for `n`. */
  function HexDigit(n: int): (ch: char)
    requires 0 <= n < 16
    ensures IsHexDigit(ch) && HexValue(ch) == n
    ensures !('A' <= ch <= 'Z')
  {
    if n < 10 then ('0' as int + n) as char else ('a' as int + n - 10) as char
  }

  /** `n.toString(16)` for a non-negative integer: lower-case digits, most
      significant first, no leading zeros. */
  function ToHex(n: nat): (s: string)
    ensures |s| >= 1
    ensures n >= 16 ==> s[0] != '0'
  {
    if n < 16 then [HexDigit(n)] else ToHex(n / 16) + [HexDigit(n % 16)]
  }

  function Pow16(k: nat): (p: nat)
    ensures p >= 1
  {
    if k == 0 then 1 else 16 * Pow16(k - 1)
  }

  /** The last `k` hex digits of `v`, zeros included. */
  function FixedHex(v: nat, k: nat): (s: string)
    ensures |s| == k
  {
    if k == 0 then [] else FixedHex(v / 16, k - 1) + [HexDigit(v % 16)]
  }

  /** Writing `16^k + v` in hex gives a `1` followed by exactly the `k`
      digits of `v`: the leading `1` is what `.slice(1)` strips. */
  lemma {:induction false} ToHexLeadingOne(k: nat, v: nat)
    requires v < Pow16(k)
    ensures ToHex(Pow16(k) + v) == "1" + FixedHex(v, k)
  {
    if k > 0 {
      var p := Pow16(k - 1);
      var n := Pow16(k) + v;
      assert n == 16 * (p + v / 16) + v % 16;
      assert n / 16 == p + v / 16 && n % 16 == v % 16;
      ToHexLeadingOne(k - 1, v / 16);
    }
  }

  /** The two hex digits of one channel, high digit first. */
  function HexPair(x: nat): (s: string)
    requires x < 256
  {
    [HexDigit(x / 16), HexDigit(x % 16)]
  }

  /** Peeling the last two digits off a fixed-width hex numeral. */
  lemma LastTwoDigits(v: nat, k: nat)
    ensures FixedHex(v, k + 2) == FixedHex(v / 256, k) + HexPair(v % 256)
  {
    assert v / 16 / 16 == v / 256;
    assert v / 16 % 16 == v % 256 / 16 && v % 16 == v % 256 % 16;
  }

  /** Splitting `hi * 256 + lo` back into its two parts. */
  lemma SplitByte(hi: nat, lo: nat)
    requires lo < 256
    ensures (hi * 256 + lo) / 256 == hi && (hi * 256 + lo) % 256 == lo
  {
  }

  /** Appending a channel's two digits to a fixed-width numeral. */
  lemma AppendPair(v: nat, hi: nat, lo: nat, k: nat)
    requires lo < 256 && v / 256 == hi && v % 256 == lo
    ensures FixedHex(v, k + 2) == FixedHex(hi, k) + HexPair(lo)
  {
    LastTwoDigits(v, k);
  }

  /** Six hex digits are three digit pairs, given how the value splits
      into bytes. */
  lemma ThreePairs(v: nat, rg: nat, r: nat, g: nat, b: nat)
    requires r < 256 && g < 256 && b < 256
    requires v / 256 == rg && v % 256 == b && rg / 256 == r && rg % 256 == g
    ensures FixedHex(v, 6) == HexPair(r) + HexPair(g) + HexPair(b)
  {
    AppendPair(v, rg, b, 4);
    AppendPair(rg, r, g, 2);
    AppendPair(r, 0, r, 0);
    assert FixedHex(r, 2) == HexPair(r);
  }

  /** Parsing a digit pair gives back the channel. */
  lemma PairValueOfHexPair(x: nat)
    requires x < 256
    ensures PairValue(HexPair(x)[0], HexPair(x)[1]) as nat == x
  {
  }

  /** The value `pickColor` writes in hex is 16^6 plus the three channels
      packed big-endian. */
  lemma PackedValue(r: nat, g: nat, b: nat)
    ensures 0x100_0000 + r * 0x1_0000 + g * 0x100 + b == Pow16(6) + (r * 256 + g) * 256 + b
  {
    assert Pow16(6) == 0x100_0000;
  }

  /** Writing 16^6 plus a value v whose bytes are r, g, b in hex and
      dropping the leading `1` leaves the digit pairs of the three channels. */
  lemma SlicedNumeral(v: nat, rg: nat, r: nat, g: nat, b: nat)
    requires r < 256 && g < 256 && b < 256
    requires v / 256 == rg && v % 256 == b && rg / 256 == r && rg % 256 == g
    ensures ToHex(Pow16(6) + v)[1..] == HexPair(r) + HexPair(g) + HexPair(b)
  {
    ToHexLeadingOne(6, v);
    ThreePairs(v, rg, r, g, b);
    assert ("1" + FixedHex(v, 6))[1..] == FixedHex(v, 6);
  }

  /** The numeral `pickColor` writes for channels r, g, b, with its leading
      `1` sliced off, is the digit pairs of the three channels. */
  lemma PickedDigits(r: nat, g: nat, b: nat)
    requires r < 256 && g < 256 && b < 256
    ensures ToHex(0x100_0000 + r * 0x1_0000 + g * 0x100 + b)[1..] == HexPair(r) + HexPair(g) + HexPair(b)
  {
    var rg := r * 256 + g;
    var v := rg * 256 + b;
    PackedValue(r, g, b);
    SplitByte(rg, b);
    SplitByte(r, g);
    SlicedNumeral(v, rg, r, g, b);
  }

  /** The text `pickColor` shows for a sampled pixel,
      `"#" + ((1 << 24) + (r << 16) + (g << 8) + b).toString(16).slice(1)`:
      `#` followed by the two-digit pairs of the three channels. */
  function PickHex(c: Rgb): (s: string)
    ensures s == "#" + HexPair(c.r as nat) + HexPair(c.g as nat) + HexPair(c.b as nat)
  {
    PickedDigits(c.r as nat, c.g as nat, c.b as nat);
    "#" + ToHex(0x100_0000 + c.r as nat * 0x1_0000 + c.g as nat * 0x100 + c.b as nat)[1..]
  }

  /** `hexToRgb` reads three digit pairs after a `#` back as the channels. */
  lemma HexToRgbOfPairs(r: nat, g: nat, b: nat)
    requires r < 256 && g < 256 && b < 256
    ensures IsHexColor("#" + HexPair(r) + HexPair(g) + HexPair(b))
    ensures HexToRgb("#" + HexPair(r) + HexPair(g) + HexPair(b)) == Rgb(r as byte, g as byte, b as byte)
  {
    var s := "#" + HexPair(r) + HexPair(g) + HexPair(b);
    assert s[1..3] == HexPair(r) && s[3..5] == HexPair(g) && s[5..7] == HexPair(b);
    PairValueOfHexPair(r);
    PairValueOfHexPair(g);
    PairValueOfHexPair(b);
  }

  /** The sampled colour's text is `#` and six lower-case hex digits, and
      `hexToRgb` reads back exactly the sampled channels. */
  lemma PickHexRoundTrip(c: Rgb)
    ensures |PickHex(c)| == 7 && IsHexColor(PickHex(c))
    ensures forall i :: 1 <= i < 7 ==> !('A' <= PickHex(c)[i] <= 'Z')
    ensures HexToRgb(PickHex(c)) == c
  {
    HexToRgbOfPairs(c.r as nat, c.g as nat, c.b as nat);
  }

  /** ASCII lower-casing of one character. */
  function LowerChar(ch: char): char
  {
    if 'A' <= ch <= 'Z' then (ch as int + 32) as char else ch
  }

  /** ASCII lower-casing, character by character. */
  function Lower(s: string): (t: string)
    ensures |t| == |s|
  {
    seq(|s|, i requires 0 <= i < |s| => LowerChar(s[i]))
  }

  /** The `i` flag: `hexToRgb` reads the same colour whatever the case of the
      letters in its argument. */
  lemma HexToRgbIgnoresCase(s: string)
    ensures HexToRgb(Lower(s)) == HexToRgb(s)
  {
    var t := Lower(s);
    forall i | 0 <= i < |s|
      ensures IsHexDigit(t[i]) <==> IsHexDigit(s[i])
      ensures IsHexDigit(s[i]) ==> HexValue(t[i]) == HexValue(s[i])
      ensures t[i] == '#' <==> s[i] == '#'
    {
    }
    assert IsHexColor(t) <==> IsHexColor(s);
  }

  /** The `#?` of the pattern: six characters are read the same with or
      without a leading `#`. */
  lemma HexToRgbOptionalHash(s: string)
    requires |s| == 6
    ensures IsHexColor("#" + s) <==> IsHexColor(s)
    ensures HexToRgb("#" + s) == HexToRgb(s)
  {
    var t := "#" + s;
    assert forall i :: 0 <= i < 6 ==> t[i + 1] == s[i];
    assert HexFrom(t, 1) <==> HexFrom(s, 0) by {
      if HexFrom(s, 0) {
        forall i | 0 <= i < |t| && 1 <= i
          ensures IsHexDigit(t[i])
        {
          assert t[i] == s[i - 1];
        }
      }
    }
  }

  /** Writing back the value of a hex digit gives the digit in lower case. */
  lemma HexDigitOfValue(ch: char)
    requires IsHexDigit(ch)
    ensures HexDigit(HexValue(ch)) == LowerChar(ch)
  {
  }

  /** A parsed digit pair, written back, is the pair in lower case. */
  lemma HexPairOfPairValue(hi: char, lo: char)
    requires IsHexDigit(hi) && IsHexDigit(lo)
    ensures HexPair(PairValue(hi, lo) as nat) == [LowerChar(hi), LowerChar(lo)]
  {
    var x := PairValue(hi, lo) as nat;
    assert x / 16 == HexValue(hi) && x % 16 == HexValue(lo);
    HexDigitOfValue(hi);
    HexDigitOfValue(lo);
  }

  /** `pickColor`'s text for three parsed digit pairs is `#` and those pairs
      in lower case. */
  lemma PickHexOfParsedPairs(h0: char, l0: char, h1: char, l1: char, h2: char, l2: char)
    requires IsHexDigit(h0) && IsHexDigit(l0) && IsHexDigit(h1) && IsHexDigit(l1)
    requires IsHexDigit(h2) && IsHexDigit(l2)
    ensures PickHex(Rgb(PairValue(h0, l0), PairValue(h1, l1), PairValue(h2, l2)))
            == "#" + ([LowerChar(h0), LowerChar(l0)] + [LowerChar(h1), LowerChar(l1)] + [LowerChar(h2), LowerChar(l2)])
  {
    HexPairOfPairValue(h0, l0);
    HexPairOfPairValue(h1, l1);
    HexPairOfPairValue(h2, l2);
  }

  /** The last six characters of a matching string are hex digits, and
      `hexToRgb` reads them pair by pair. */
  lemma HexToRgbOfMatch(s: string)
    requires IsHexColor(s)
    ensures var o := |s| - 6;
            && o >= 0
            && IsHexDigit(s[o]) && IsHexDigit(s[o + 1]) && IsHexDigit(s[o + 2])
            && IsHexDigit(s[o + 3]) && IsHexDigit(s[o + 4]) && IsHexDigit(s[o + 5])
            && HexToRgb(s) == Rgb(PairValue(s[o], s[o + 1]), PairValue(s[o + 2], s[o + 3]), PairValue(s[o + 4], s[o + 5]))
  {
  }

  /** Lower-casing the last six characters, pair by pair. */
  lemma LowerLastSix(s: string)
    requires |s| >= 6
    ensures var o := |s| - 6;
            Lower(s[o..]) == [LowerChar(s[o]), LowerChar(s[o + 1])] + [LowerChar(s[o + 2]), LowerChar(s[o + 3])]
                             + [LowerChar(s[o + 4]), LowerChar(s[o + 5])]
  {
  }

  /** The converse round trip: the colour `hexToRgb` reads from a matching
      string is shown by `pickColor` as `#` and that string's six digits in
      lower case. */
  lemma HexToRgbThenPickHex(s: string)
    requires IsHexColor(s)
    ensures PickHex(HexToRgb(s)) == "#" + Lower(s[|s| - 6..])
  {
    var o := |s| - 6;
    HexToRgbOfMatch(s);
    PickHexOfParsedPairs(s[o], s[o + 1], s[o + 2], s[o + 3], s[o + 4], s[o + 5]);
    LowerLastSix(s);
  }
}
