/** Rendering of unsigned words as upper-case hexadecimal text, the way the
    `%08X` conversion of printf does it (section 7.21.6.1 of ISO/IEC 9899:2011:
    the `X` conversion uses the letters ABCDEF, and the `0` flag with field
    width 8 pads on the left with zeros), and parsing such text back. */
module Hex {
  import opened BoundedInts

  predicate IsHexDigit(c: char) {
    '0' <= c <= '9' || 'A' <= c <= 'F'
  }

  predicate IsHexString(s: string) {
    forall i :: 0 <= i < |s| ==> IsHexDigit(s[i])
  }

  /** The value of one upper-case hexadecimal digit. */
  function DigitValue(c: char): (d: nat)
    requires IsHexDigit(c)
    ensures d < 16
  {
    if c <= '9' then c as int - '0' as int else c as int - 'A' as int + 10
  }

  /** The digit that `%X` prints for a value below sixteen. */
  function DigitChar(d: nat): (c: char)
    requires d < 16
    ensures IsHexDigit(c) && DigitValue(c) == d
  {
    if d < 10 then ('0' as int + d) as char else ('A' as int + d - 10) as char
  }

  lemma DigitCharOfValue(c: char)
    requires IsHexDigit(c)
    ensures DigitChar(DigitValue(c)) == c
  {
  }

  function Pow16(n: nat): (p: nat)
    ensures p >= 1
  {
    if n == 0 then 1 else 16 * Pow16(n - 1)
  }

  lemma Pow16Eight()
    ensures Pow16(8) == TWO_32
  {
  }

  /** `x` written with exactly `n` hexadecimal digits, most significant
      first, padded on the left with '0'. */
  function HexDigits(x: nat, n: nat): (s: string)
    requires x < Pow16(n)
    ensures |s| == n && IsHexString(s)
  {
    if n == 0 then "" else HexDigits(x / 16, n - 1) + [DigitChar(x % 16)]
  }

  /** The base-16 value of a string of hexadecimal digits, most significant
      digit first; the empty string reads as zero. */
  function ParseHex(s: string): (v: nat)
    requires IsHexString(s)
    ensures v < Pow16(|s|)
  {
    if s == [] then 0 else ParseHex(s[..|s| - 1]) * 16 + DigitValue(s[|s| - 1])
  }

  /** Parsing the rendering of `x` gives `x` back. */
  lemma {:induction false} HexDigitsRoundTrip(x: nat, n: nat)
    requires x < Pow16(n)
    ensures ParseHex(HexDigits(x, n)) == x
  {
    if n > 0 {
      var s := HexDigits(x, n);
      assert s[..n - 1] == HexDigits(x / 16, n - 1);
      HexDigitsRoundTrip(x / 16, n - 1);
    }
  }

  /** Rendering the value of a digit string with as many digits as it has
      gives the string back: no two digit strings of one length share a value. */
  lemma {:induction false} ParseHexRoundTrip(s: string)
    requires IsHexString(s)
    ensures HexDigits(ParseHex(s), |s|) == s
  {
    if s != [] {
      var init, last := s[..|s| - 1], s[|s| - 1];
      var v := ParseHex(s);
      assert v / 16 == ParseHex(init) && v % 16 == DigitValue(last);
      ParseHexRoundTrip(init);
      DigitCharOfValue(last);
      assert s == init + [last];
    }
  }

  lemma ShiftInDigit(x: nat, p: nat, y: nat, d: nat)
    ensures (x * p + y) * 16 + d == x * (16 * p) + (y * 16 + d)
  {
  }

  /** Reading a concatenation: the left part is shifted by four bits per
      digit of the right part. */
  lemma {:induction false} ParseHexAppend(a: string, b: string)
    requires IsHexString(a) && IsHexString(b)
    ensures IsHexString(a + b)
    ensures ParseHex(a + b) == ParseHex(a) * Pow16(|b|) + ParseHex(b)
  {
    if b != [] {
      var b', d := b[..|b| - 1], b[|b| - 1];
      assert (a + b)[..|a + b| - 1] == a + b';
      ParseHexAppend(a, b');
      assert Pow16(|b|) == 16 * Pow16(|b'|);
      ShiftInDigit(ParseHex(a), Pow16(|b'|), ParseHex(b'), DigitValue(d));
    } else {
      assert a + b == a;
    }
  }

  /** `printf("%08X", w)` for a 32-bit word: always exactly eight digits,
      whose base-16 value is the word. */
  function Hex8(w: u32): (s: string)
    ensures |s| == 8 && IsHexString(s)
    ensures ParseHex(s) == w
  {
    Pow16Eight();
    HexDigitsRoundTrip(w, 8);
    HexDigits(w, 8)
  }

  /** Reads eight hexadecimal digits back as the word they render. */
  function ParseWord(t: string): (w: u32)
    requires |t| == 8 && IsHexString(t)
    ensures Hex8(w) == t
  {
    Pow16Eight();
    ParseHexRoundTrip(t);
    ParseHex(t)
  }

  /** The renderings of `ws`, in order, with no separators: character `i`
      is digit `i mod 8` of the rendering of word `i / 8`. */
  function HexWords(ws: seq<u32>): (s: string)
    ensures |s| == 8 * |ws|
  {
    seq(8 * |ws|, i requires 0 <= i < 8 * |ws| => Hex8(ws[i / 8])[i % 8])
  }

  /** Every character printed for a run of words is a hexadecimal digit. */
  lemma HexWordsIsHex(ws: seq<u32>)
    ensures IsHexString(HexWords(ws))
  {
    var s := HexWords(ws);
    forall i | 0 <= i < |s|
      ensures IsHexDigit(s[i])
    {
      assert s[i] == Hex8(ws[i / 8])[i % 8];
    }
  }

  /** Printing one more word appends its eight digits. */
  lemma HexWordsAppend(ws: seq<u32>, w: u32)
    ensures HexWords(ws + [w]) == HexWords(ws) + Hex8(w)
  {
    var s, t := HexWords(ws + [w]), HexWords(ws) + Hex8(w);
    forall i | 0 <= i < |s|
      ensures s[i] == t[i]
    {
      if i < 8 * |ws| {
        assert i / 8 < |ws|;
      } else {
        assert i / 8 == |ws| && i % 8 == i - 8 * |ws|;
      }
    }
  }

  /** The `k`-th group of eight characters is the rendering of the `k`-th
      word, and reads back as that word: chunks appear in the order of the
      words. */
  lemma HexWordsChunk(ws: seq<u32>, k: nat)
    requires k < |ws|
    ensures 8 * k + 8 <= |HexWords(ws)|
    ensures HexWords(ws)[8 * k .. 8 * k + 8] == Hex8(ws[k])
    ensures ParseHex(HexWords(ws)[8 * k .. 8 * k + 8]) == ws[k]
  {
    var s := HexWords(ws);
    forall j | 0 <= j < 8
      ensures s[8 * k + j] == Hex8(ws[k])[j]
    {
      assert (8 * k + j) / 8 == k && (8 * k + j) % 8 == j;
    }
    assert s[8 * k .. 8 * k + 8] == Hex8(ws[k]);
  }

  /** Splits a text of whole eight-digit groups back into the words. */
  function ParseWords(s: string): (ws: seq<u32>)
    requires IsHexString(s) && |s| % 8 == 0
    ensures 8 * |ws| == |s|
  {
    if s == [] then [] else ParseWords(s[..|s| - 8]) + [ParseWord(s[|s| - 8..])]
  }

  /** Splitting the text of `ws` gives `ws` back. */
  lemma {:induction false} WordsRoundTrip(ws: seq<u32>)
    ensures IsHexString(HexWords(ws))
    ensures ParseWords(HexWords(ws)) == ws
  {
    HexWordsIsHex(ws);
    if ws != [] {
      var init, last := ws[..|ws| - 1], ws[|ws| - 1];
      var s := HexWords(ws);
      assert ws == init + [last];
      HexWordsAppend(init, last);
      assert s[..|s| - 8] == HexWords(init);
      assert s[|s| - 8..] == Hex8(last);
      WordsRoundTrip(init);
      ParseHexRoundTrip(Hex8(last));
    }
  }

  /** Both parts of a hexadecimal text are hexadecimal texts. */
  lemma SlicesAreHex(s: string, n: nat)
    requires IsHexString(s) && n <= |s|
    ensures IsHexString(s[..n]) && IsHexString(s[n..])
  {
    forall i | 0 <= i < n
      ensures IsHexDigit(s[..n][i])
    {
      assert s[..n][i] == s[i];
    }
    forall i | 0 <= i < |s| - n
      ensures IsHexDigit(s[n..][i])
    {
      assert s[n..][i] == s[n + i];
    }
  }

  /** A text is its two parts put back together. */
  lemma SplitAt(s: string, n: nat)
    requires n <= |s|
    ensures s[..n] + s[n..] == s
  {
    var t := s[..n] + s[n..];
    forall i | 0 <= i < |s|
      ensures t[i] == s[i]
    {
      if i < n {
        assert t[i] == s[..n][i];
      } else {
        assert t[i] == s[n..][i - n];
      }
    }
  }

  /** Reading a text takes its last group of eight digits as the last word. */
  lemma ParseWordsSnoc(s: string)
    requires IsHexString(s) && |s| % 8 == 0 && s != []
    ensures IsHexString(s[..|s| - 8]) && IsHexString(s[|s| - 8..])
    ensures ParseWords(s) == ParseWords(s[..|s| - 8]) + [ParseWord(s[|s| - 8..])]
  {
    SlicesAreHex(s, |s| - 8);
  }

  /** Rendering the words read from a text gives the text back. */
  lemma {:induction false} TextRoundTrip(s: string)
    requires IsHexString(s) && |s| % 8 == 0
    ensures HexWords(ParseWords(s)) == s
  {
    if s != [] {
      var init, last := s[..|s| - 8], s[|s| - 8..];
      ParseWordsSnoc(s);
      HexWordsAppend(ParseWords(init), ParseWord(last));
      TextRoundTrip(init);
      SplitAt(s, |s| - 8);
    }
  }
}
