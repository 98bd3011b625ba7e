/**
 * Hex dumps of byte sequences: every byte becomes a `0x`-prefixed token of
 * two lowercase hex digits, consecutive tokens are joined by a separator,
 * and a line break follows the separator before every value whose index is
 * a positive multiple of `valuesPerLine`.
 */
module HexDumping {
  import opened AqlCore

  type Byte = x: int | 0 <= x < 256

  predicate IsHexDigit(c: char) {
    '0' <= c <= '9' || 'a' <= c <= 'f'
  }

  function HexDigit(x: int): (c: char)
    requires 0 <= x < 16
    ensures IsHexDigit(c)
    ensures DigitValue(c) == x
  {
    if x < 10 then ('0' as int + x) as char else ('a' as int + x - 10) as char
  }

  function DigitValue(c: char): (x: int)
    requires IsHexDigit(c)
    ensures 0 <= x < 16
  {
    if c <= '9' then c as int - '0' as int else c as int - 'a' as int + 10
  }

  /** The token for one byte. */
  function ToHex(value: Byte): (r: string)
    ensures |r| == 4 && r[0] == '0' && r[1] == 'x'
    ensures IsHexDigit(r[2]) && IsHexDigit(r[3])
    ensures DigitValue(r[2]) * 16 + DigitValue(r[3]) == value
    ensures '\n' !in r
  {
    "0x" + [HexDigit(value / 16), HexDigit(value % 16)]
  }

  /** Reads a token back; None for anything that is not a token. */
  function FromHex(token: string): (r: Option<Byte>)
    ensures r.Some? <==> |token| == 4 && token[..2] == "0x" && IsHexDigit(token[2]) && IsHexDigit(token[3])
  {
    if |token| == 4 && token[..2] == "0x" && IsHexDigit(token[2]) && IsHexDigit(token[3])
    then Some(DigitValue(token[2]) * 16 + DigitValue(token[3]))
    else None
  }

  lemma FromHexToHex(value: Byte)
    ensures FromHex(ToHex(value)) == Some(value)
  {
    assert ToHex(value)[..2] == "0x";
  }

  lemma ToHexFromHex(token: string)
    requires FromHex(token).Some?
    ensures ToHex(FromHex(token).value) == token
  {
    var v := FromHex(token).value;
    var t := ToHex(v);
    DigitValueInjective(t[2], token[2]);
    DigitValueInjective(t[3], token[3]);
    assert t[..2] == "0x" == token[..2];
    assert t[0] == token[0] && t[1] == token[1];
  }

  lemma DigitValueInjective(c: char, d: char)
    requires IsHexDigit(c) && IsHexDigit(d) && DigitValue(c) % 16 == DigitValue(d) % 16
    ensures c == d
  {
  }

  // ---------------------------------------------------------------------------
  // The dump, defined value by value.

  /** What is written in front of value `i`. */
  function Gap(i: nat, valuesPerLine: int, separator: string): string {
    if i == 0 then ""
    else if valuesPerLine > 0 && i % valuesPerLine == 0 then separator + "\n"
    else separator
  }

  function Dump(bytes: seq<Byte>, valuesPerLine: int, separator: string): string {
    if bytes == [] then ""
    else
      Dump(bytes[..|bytes| - 1], valuesPerLine, separator)
      + Gap(|bytes| - 1, valuesPerLine, separator) + ToHex(bytes[|bytes| - 1])
  }

  /** The value of the `current` counter after `i` values were written:
      it counts the values on the current line and restarts after a line
      break. */
  function Counter(i: nat, valuesPerLine: int): int {
    if i == 0 then 0
    else
      var c := Counter(i - 1, valuesPerLine);
      if c != 0 && valuesPerLine > 0 && c == valuesPerLine then 1 else c + 1
  }

  /** The loop over the bytes with its `current` counter. */
  method ToString(bytes: seq<Byte>, valuesPerLine: int, separator: string) returns (result: string)
    ensures result == Dump(bytes, valuesPerLine, separator)
  {
    result := "";
    var current := 0;
    var i := 0;
    while i < |bytes|
      invariant 0 <= i <= |bytes|
      invariant result == Dump(bytes[..i], valuesPerLine, separator)
      invariant current == Counter(i, valuesPerLine)
    {
      ghost var before := result;
      ghost var gap := Gap(i, valuesPerLine, separator);
      CounterDecidesGap(i, valuesPerLine);
      if current != 0 {
        result := result + separator;
        if valuesPerLine > 0 && current == valuesPerLine {
          result := result + "\n";
          current := 0;
          assert result == before + gap;
        } else {
          assert result == before + gap;
        }
      } else {
        assert result + "" == before + gap;
      }
      result := result + ToHex(bytes[i]);
      current := current + 1;
      DumpStep(bytes, i, valuesPerLine, separator);
      i := i + 1;
    }
    assert bytes[..i] == bytes;
  }

  lemma DumpStep(bytes: seq<Byte>, i: nat, valuesPerLine: int, separator: string)
    requires i < |bytes|
    ensures Dump(bytes[..i + 1], valuesPerLine, separator)
         == Dump(bytes[..i], valuesPerLine, separator) + Gap(i, valuesPerLine, separator) + ToHex(bytes[i])
  {
    assert bytes[..i + 1][..i] == bytes[..i];
  }

  /** The counter is the position of the last value within its line. */
  lemma {:induction false} CounterClosedForm(i: nat, valuesPerLine: int)
    ensures Counter(i, valuesPerLine)
         == (if i == 0 then 0 else if valuesPerLine > 0 then (i - 1) % valuesPerLine + 1 else i)
  {
    if i > 1 {
      CounterClosedForm(i - 1, valuesPerLine);
      if valuesPerLine > 0 {
        ModSuccessor(i - 2, valuesPerLine);
      }
    }
  }

  /** The counter's tests in the loop pick exactly the gap of `Gap`. */
  lemma CounterDecidesGap(i: nat, valuesPerLine: int)
    ensures Counter(i, valuesPerLine) != 0 <==> i > 0
    ensures Counter(i, valuesPerLine) != 0 && valuesPerLine > 0 && Counter(i, valuesPerLine) == valuesPerLine
        <==> i > 0 && valuesPerLine > 0 && i % valuesPerLine == 0
  {
    CounterClosedForm(i, valuesPerLine);
    if i > 0 && valuesPerLine > 0 {
      ModSuccessor(i - 1, valuesPerLine);
    }
  }

  /** The residue of `m + 1` follows from the residue of `m`. */
  lemma ModSuccessor(m: nat, d: int)
    requires d > 0
    ensures m % d + 1 < d ==> (m + 1) % d == m % d + 1
    ensures m % d + 1 == d ==> (m + 1) % d == 0
    ensures m % d + 1 < d ==> (m + 1) / d == m / d
    ensures m % d + 1 == d ==> (m + 1) / d == m / d + 1
  {
    var q, r := m / d, m % d;
    assert m == q * d + r;
    if r + 1 < d {
      DivModUnique(m + 1, d, q, r + 1);
    } else {
      assert m + 1 == (q + 1) * d + 0;
      DivModUnique(m + 1, d, q + 1, 0);
    }
  }

  lemma DivModUnique(n: int, d: int, q: int, r: int)
    requires d > 0 && 0 <= r < d && n == q * d + r
    ensures n / d == q && n % d == r
  {
    var q', r' := n / d, n % d;
    if q' < q {
      MulStrict(q', q, d);
    } else if q < q' {
      MulStrict(q, q', d);
    }
  }

  /** A larger factor gives a product larger by at least `d`. */
  lemma MulStrict(a: int, b: int, d: int)
    requires a < b && d > 0
    ensures a * d + d <= b * d
  {
    var k := b - a;
    assert b * d == a * d + k * d;
    MulAtLeast(k, d);
  }

  lemma {:induction false} MulAtLeast(k: nat, d: nat)
    requires k >= 1
    ensures k * d >= d
  {
    if k > 1 {
      MulAtLeast(k - 1, d);
      assert k * d == (k - 1) * d + d;
    }
  }

  // ---------------------------------------------------------------------------
  // Properties of the dump.

  /** The number of line breaks among `n` values. */
  function LineBreaks(n: nat, valuesPerLine: int): nat {
    if n > 0 && valuesPerLine > 0 then (n - 1) / valuesPerLine else 0
  }

  /** 4 characters per token, a separator between neighbours, and the
      line breaks. */
  lemma {:induction false} DumpLength(bytes: seq<Byte>, valuesPerLine: int, separator: string)
    ensures |Dump(bytes, valuesPerLine, separator)|
         == (if bytes == [] then 0
             else 4 * |bytes| + (|bytes| - 1) * |separator| + LineBreaks(|bytes|, valuesPerLine))
  {
    if bytes != [] {
      var n := |bytes|;
      DumpStepLength(bytes, valuesPerLine, separator);
      if n > 1 {
        DumpLength(bytes[..n - 1], valuesPerLine, separator);
        GapLength(n - 1, valuesPerLine, separator);
        MulPredecessor(n - 1, |separator|);
      }
    }
  }

  /** One more value adds its gap and four characters. */
  lemma DumpStepLength(bytes: seq<Byte>, valuesPerLine: int, separator: string)
    requires bytes != []
    ensures |Dump(bytes, valuesPerLine, separator)|
         == |Dump(bytes[..|bytes| - 1], valuesPerLine, separator)| + |Gap(|bytes| - 1, valuesPerLine, separator)| + 4
  {
  }

  /** A gap is one separator, plus one character where a line break is due. */
  lemma GapLength(i: nat, valuesPerLine: int, separator: string)
    requires i > 0
    ensures |Gap(i, valuesPerLine, separator)|
         == |separator| + LineBreaks(i + 1, valuesPerLine) - LineBreaks(i, valuesPerLine)
  {
    LineBreaksStep(i, valuesPerLine);
  }

  lemma MulPredecessor(m: nat, s: nat)
    requires m > 0
    ensures m * s == (m - 1) * s + s
  {
  }

  /** Dumping a prefix of the bytes gives a prefix of the dump. */
  lemma {:induction false} DumpPrefix(bytes: seq<Byte>, k: nat, valuesPerLine: int, separator: string)
    requires k <= |bytes|
    ensures Dump(bytes[..k], valuesPerLine, separator) <= Dump(bytes, valuesPerLine, separator)
  {
    if k < |bytes| {
      var init := bytes[..|bytes| - 1];
      assert init[..k] == bytes[..k];
      DumpPrefix(init, k, valuesPerLine, separator);
    } else {
      assert bytes[..k] == bytes;
    }
  }

  /** Value `k` is written as its own token, right after its gap, at the
      position the length formula predicts. */
  lemma TokenAt(bytes: seq<Byte>, k: nat, valuesPerLine: int, separator: string)
    requires k < |bytes|
    ensures var out := Dump(bytes, valuesPerLine, separator);
            var gap := Gap(k, valuesPerLine, separator);
            var start := |Dump(bytes[..k], valuesPerLine, separator)| + |gap|;
            start + 4 <= |out|
            && out[start - |gap|..start] == gap
            && out[start..start + 4] == ToHex(bytes[k])
  {
    var upto := Dump(bytes[..k + 1], valuesPerLine, separator);
    assert bytes[..k + 1][..k] == bytes[..k];
    LastToken(bytes[..k + 1], valuesPerLine, separator);
    DumpPrefix(bytes, k + 1, valuesPerLine, separator);
    var start := |Dump(bytes[..k], valuesPerLine, separator)| + |Gap(k, valuesPerLine, separator)|;
    SliceOfPrefix(upto, Dump(bytes, valuesPerLine, separator), start - |Gap(k, valuesPerLine, separator)|, start);
    SliceOfPrefix(upto, Dump(bytes, valuesPerLine, separator), start, start + 4);
  }

  /** The last value's gap and token end the dump. */
  lemma LastToken(bytes: seq<Byte>, valuesPerLine: int, separator: string)
    requires bytes != []
    ensures var k := |bytes| - 1;
            var out := Dump(bytes, valuesPerLine, separator);
            var gap := Gap(k, valuesPerLine, separator);
            var start := |Dump(bytes[..k], valuesPerLine, separator)| + |gap|;
            start + 4 == |out|
            && out[start - |gap|..start] == gap
            && out[start..start + 4] == ToHex(bytes[k])
  {
    var k := |bytes| - 1;
    var prefix := Dump(bytes[..k], valuesPerLine, separator);
    var gap := Gap(k, valuesPerLine, separator);
    var token := ToHex(bytes[k]);
    assert Dump(bytes, valuesPerLine, separator) == prefix + gap + token;
    SlicesOfThree(prefix, gap, token);
  }

  lemma SlicesOfThree(a: string, b: string, c: string)
    ensures |a + b + c| == |a| + |b| + |c|
    ensures (a + b + c)[|a|..|a| + |b|] == b
    ensures (a + b + c)[|a| + |b|..|a| + |b| + |c|] == c
  {
  }

  lemma SliceOfPrefix(a: string, b: string, lo: nat, hi: nat)
    requires a <= b && lo <= hi <= |a|
    ensures b[lo..hi] == a[lo..hi]
  {
  }

  /** A dump of nothing is empty. */
  lemma EmptyDump(valuesPerLine: int, separator: string)
    ensures Dump([], valuesPerLine, separator) == ""
  {
  }

  /** Occurrences of a character. */
  function Count(c: char, s: string): nat {
    if s == [] then 0 else Count(c, s[..|s| - 1]) + (if s[|s| - 1] == c then 1 else 0)
  }

  lemma {:induction false} CountAppend(c: char, a: string, b: string)
    ensures Count(c, a + b) == Count(c, a) + Count(c, b)
  {
    if b == [] {
      assert a + b == a;
    } else {
      assert (a + b)[..|a + b| - 1] == a + b[..|b| - 1];
      CountAppend(c, a, b[..|b| - 1]);
    }
  }

  lemma CountAbsent(c: char, s: string)
    requires c !in s
    ensures Count(c, s) == 0
  {
    if s != [] {
      CountAbsent(c, s[..|s| - 1]);
    }
  }

  /** One more value adds a line break exactly when its gap holds one. */
  lemma LineBreaksStep(i: nat, valuesPerLine: int)
    ensures LineBreaks(i + 1, valuesPerLine)
         == LineBreaks(i, valuesPerLine) + (if i > 0 && valuesPerLine > 0 && i % valuesPerLine == 0 then 1 else 0)
  {
    if i > 0 && valuesPerLine > 0 {
      ModSuccessor(i - 1, valuesPerLine);
    }
  }

  lemma GapNewlines(i: nat, valuesPerLine: int, separator: string)
    requires '\n' !in separator
    ensures Count('\n', Gap(i, valuesPerLine, separator))
         == (if i > 0 && valuesPerLine > 0 && i % valuesPerLine == 0 then 1 else 0)
  {
    CountAbsent('\n', separator);
    if i > 0 && valuesPerLine > 0 && i % valuesPerLine == 0 {
      CountAppend('\n', separator, "\n");
      assert "\n"[..0] == [];
    }
  }

  /** With a separator free of line breaks, the dump holds exactly the
      line breaks of the `valuesPerLine` rule, and none when it is not
      positive. */
  lemma {:induction false} NewlineCount(bytes: seq<Byte>, valuesPerLine: int, separator: string)
    requires '\n' !in separator
    ensures Count('\n', Dump(bytes, valuesPerLine, separator)) == LineBreaks(|bytes|, valuesPerLine)
  {
    if bytes != [] {
      var n := |bytes|;
      var prefix := Dump(bytes[..n - 1], valuesPerLine, separator);
      var gap := Gap(n - 1, valuesPerLine, separator);
      var token := ToHex(bytes[n - 1]);
      NewlineCount(bytes[..n - 1], valuesPerLine, separator);
      CountAppend('\n', prefix, gap);
      CountAppend('\n', prefix + gap, token);
      CountAbsent('\n', token);
      GapNewlines(n - 1, valuesPerLine, separator);
      LineBreaksStep(n - 1, valuesPerLine);
    }
  }

  /** The tokens of the bytes, in byte order. */
  function Tokens(bytes: seq<Byte>): (ts: seq<string>)
    ensures |ts| == |bytes|
    ensures forall i :: 0 <= i < |bytes| ==> ts[i] == ToHex(bytes[i])
  {
    if bytes == [] then [] else Tokens(bytes[..|bytes| - 1]) + [ToHex(bytes[|bytes| - 1])]
  }

  /** Plain joining of strings with a separator between neighbours. */
  function Join(parts: seq<string>, separator: string): string {
    if |parts| == 0 then ""
    else if |parts| == 1 then parts[0]
    else Join(parts[..|parts| - 1], separator) + separator + parts[|parts| - 1]
  }

  /** Without a positive `valuesPerLine` the dump is the tokens joined by the
      separator. */
  lemma {:induction false} DumpIsJoin(bytes: seq<Byte>, valuesPerLine: int, separator: string)
    requires valuesPerLine <= 0
    ensures Dump(bytes, valuesPerLine, separator) == Join(Tokens(bytes), separator)
  {
    if |bytes| > 1 {
      var init := bytes[..|bytes| - 1];
      DumpIsJoin(init, valuesPerLine, separator);
      assert Tokens(bytes)[..|bytes| - 1] == Tokens(init);
    } else if |bytes| == 1 {
      assert bytes[..0] == [];
    }
  }

  // ---------------------------------------------------------------------------
  // The capacity reserved before the loop.

  const SizeTModulus: nat := 0x1_0000_0000_0000_0000

  /** The reserve expression as written: `length / valuesPerLine` with the
      `int` converted to the unsigned length type. None where it divides by
      zero. */
  function ReserveAsWritten(length: nat, separatorSize: nat, valuesPerLine: int): (r: Option<nat>)
    requires -0x8000_0000 <= valuesPerLine < 0x8000_0000
    ensures r.None? <==> valuesPerLine == 0
  {
    if valuesPerLine == 0 then None
    else
      var divisor := if valuesPerLine > 0 then valuesPerLine else valuesPerLine + SizeTModulus;
      Some(4 * (length + separatorSize) + length / divisor + 1)
  }

  /** The reserve with the line-break term guarded like the loop guards it. */
  function ReserveCapacity(length: nat, separatorSize: nat, valuesPerLine: int): nat {
    4 * (length + separatorSize) + (if valuesPerLine > 0 then length / valuesPerLine else 0) + 1
  }

  /** The guarded reserve is defined for every `valuesPerLine`, agrees with
      the expression as written wherever that one is defined (for lengths
      below 2^63), and always covers the tokens and the line breaks. */
  lemma ReserveCapacityAgrees(length: nat, separatorSize: nat, valuesPerLine: int)
    requires -0x8000_0000 <= valuesPerLine < 0x8000_0000
    ensures var r := ReserveCapacity(length, separatorSize, valuesPerLine);
            && (valuesPerLine > 0 ==> ReserveAsWritten(length, separatorSize, valuesPerLine) == Some(r))
            && (valuesPerLine < 0 && length < SizeTModulus / 2 ==>
                  ReserveAsWritten(length, separatorSize, valuesPerLine) == Some(r))
            && r >= 4 * length + LineBreaks(length, valuesPerLine) + 1
  {
    if valuesPerLine > 0 {
      if length > 0 {
        DivMonotone(length - 1, length, valuesPerLine);
      }
    } else if valuesPerLine < 0 && length < SizeTModulus / 2 {
      WrappedDivisorExceeds(length, valuesPerLine);
    }
  }

  /** A negative `int` converted to `size_t` is at least 2^63, so shorter
      lengths divide to 0. */
  lemma WrappedDivisorExceeds(length: nat, valuesPerLine: int)
    requires -0x8000_0000 <= valuesPerLine < 0 && length < SizeTModulus / 2
    ensures length / (valuesPerLine + SizeTModulus) == 0
  {
    DivModUnique(length, valuesPerLine + SizeTModulus, 0, length);
  }

  lemma DivMonotone(a: nat, b: nat, d: int)
    requires a <= b && d > 0
    ensures a / d <= b / d
  {
    if b / d < a / d {
      MulStrict(b / d, a / d, d);
    }
  }

  /** The reserve as written is undefined for a dump without line breaks,
      although the loop itself handles that case and produces a plain join. */
  lemma ZeroValuesPerLineDividesByZero(bytes: seq<Byte>, separator: string)
    ensures ReserveAsWritten(|bytes|, |separator|, 0).None?
    ensures Dump(bytes, 0, separator) == Join(Tokens(bytes), separator)
  {
    DumpIsJoin(bytes, 0, separator);
  }
}
