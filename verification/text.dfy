/** The slice of Python's string behaviour the bot relies on: `join`, `split`,
    `str(int)`, `isspace`, `lower` and `strip`. */
module Text {
  import opened Base

  /** `sep.join(words)`: the words with `sep` between consecutive ones; `""` when there are none. */
  function Join(words: seq<string>, sep: string): string
  {
    if |words| == 0 then ""
    else if |words| == 1 then words[0]
    else words[0] + sep + Join(words[1..], sep)
  }

  /** Where each piece of a four-piece concatenation sits. */
  lemma Pieces(a: string, b: string, c: string, d: string)
    ensures var t := a + b + c + d;
      && |t| == |a| + |b| + |c| + |d|
      && t[..|a|] == a && t[|a|..|a| + |b|] == b
      && t[|a| + |b|..|a| + |b| + |c|] == c && t[|a| + |b| + |c|..] == d
  {
  }

  /** `s.split(sep)` for a one-character separator: the pieces between separators, empty ones included. */
  function SplitOn(s: string, sep: char): (pieces: seq<string>)
    ensures |pieces| > 0
    ensures forall i :: 0 <= i < |pieces| ==> sep !in pieces[i]
    decreases |s|
  {
    if |s| == 0 then [""]
    else if s[0] == sep then [""] + SplitOn(s[1..], sep)
    else
      var rest := SplitOn(s[1..], sep);
      [[s[0]] + rest[0]] + rest[1..]
  }

  lemma {:induction false} SplitOnWithoutSeparator(w: string, sep: char)
    requires sep !in w
    ensures SplitOn(w, sep) == [w]
    decreases |w|
  {
    if |w| > 0 {
      assert sep !in w[1..];
      SplitOnWithoutSeparator(w[1..], sep);
      assert [w[0]] + w[1..] == w;
    }
  }

  lemma {:induction false} SplitOnAfterWord(w: string, sep: char, rest: string)
    requires sep !in w
    ensures SplitOn(w + [sep] + rest, sep) == [w] + SplitOn(rest, sep)
    decreases |w|
  {
    var s := w + [sep] + rest;
    if |w| == 0 {
      assert s[1..] == rest;
    } else {
      assert s[0] == w[0];
      assert s[1..] == w[1..] + [sep] + rest;
      assert sep !in w[1..];
      SplitOnAfterWord(w[1..], sep, rest);
      assert [w[0]] + w[1..] == w;
    }
  }

  /** Splitting undoes joining, as long as no word contains the separator. */
  lemma {:induction false} SplitOnJoin(words: seq<string>, sep: char)
    requires |words| > 0
    requires forall i :: 0 <= i < |words| ==> sep !in words[i]
    ensures SplitOn(Join(words, [sep]), sep) == words
    decreases |words|
  {
    if |words| == 1 {
      SplitOnWithoutSeparator(words[0], sep);
    } else {
      SplitOnJoin(words[1..], sep);
      SplitOnAfterWord(words[0], sep, Join(words[1..], [sep]));
      assert [words[0]] + words[1..] == words;
    }
  }

  // ---------------------------------------------------------------- decimal numerals

  predicate IsDigit(c: char) { '0' <= c <= '9' }

  predicate AllDigits(s: string) { forall i :: 0 <= i < |s| ==> IsDigit(s[i]) }

  function DigitChar(d: nat): (c: char)
    requires d < 10
    ensures IsDigit(c) && c as int - '0' as int == d
  {
    ('0' as int + d) as char
  }

  function DigitValue(c: char): nat
    requires IsDigit(c)
  {
    c as int - '0' as int
  }

  /** `str(n)` for a non-negative integer: canonical decimal digits, no leading zero. */
  function NatToDecimal(n: nat): (s: string)
    ensures |s| > 0 && AllDigits(s)
    ensures s[0] == '0' <==> n == 0
    ensures n < 10 <==> |s| == 1
    decreases n
  {
    if n < 10 then [DigitChar(n)] else NatToDecimal(n / 10) + [DigitChar(n % 10)]
  }

  /** The number a string of decimal digits denotes. */
  function DecimalValue(s: string): nat
    requires AllDigits(s)
  {
    if |s| == 0 then 0 else DecimalValue(s[..|s| - 1]) * 10 + DigitValue(s[|s| - 1])
  }

  lemma {:induction false} DecimalRoundTrip(n: nat)
    ensures DecimalValue(NatToDecimal(n)) == n
    decreases n
  {
    if n >= 10 {
      var s := NatToDecimal(n);
      assert s[..|s| - 1] == NatToDecimal(n / 10);
      DecimalRoundTrip(n / 10);
    }
  }

  /** `str(i)` for any integer: a minus sign in front of the magnitude when negative. */
  function IntToDecimal(i: int): (s: string)
    ensures |s| > 0 && ' ' !in s
    ensures i < 0 <==> s[0] == '-'
  {
    if i < 0 then "-" + NatToDecimal(-i) else NatToDecimal(i)
  }

  /** Reads an optionally signed decimal numeral; anything else is rejected. */
  function ParseInt(s: string): Option<int>
  {
    if |s| > 1 && s[0] == '-' && AllDigits(s[1..]) then Some(0 - DecimalValue(s[1..]))
    else if |s| > 0 && AllDigits(s) then Some(DecimalValue(s))
    else None
  }

  /** A minus sign followed by digits reads as the negated value of the digits. */
  lemma ParseNegative(t: string)
    requires |t| > 0 && AllDigits(t)
    ensures ParseInt("-" + t) == Some(0 - DecimalValue(t))
  {
    assert ("-" + t)[1..] == t;
  }

  /** A non-empty string of digits reads as its value. */
  lemma ParseDigits(t: string)
    requires |t| > 0 && AllDigits(t)
    ensures ParseInt(t) == Some(DecimalValue(t))
  {
    assert IsDigit(t[0]);
  }

  lemma IntRoundTrip(i: int)
    ensures ParseInt(IntToDecimal(i)) == Some(i)
  {
    if i < 0 {
      ParseNegative(NatToDecimal(-i));
      DecimalRoundTrip(-i);
    } else {
      ParseDigits(NatToDecimal(i));
      DecimalRoundTrip(i);
    }
  }

  // ---------------------------------------------------------------- Python character classes

  /** `c.isspace()`: the characters Python's argument-less `split` and `strip` treat as whitespace. */
  predicate IsSpace(c: char)
  {
    var n := c as int;
    || 0x09 <= n <= 0x0D || 0x1C <= n <= 0x20 || n == 0x85 || n == 0xA0 || n == 0x1680
    || 0x2000 <= n <= 0x200A || n == 0x2028 || n == 0x2029 || n == 0x202F || n == 0x205F || n == 0x3000
  }

  predicate NoSpace(s: string) { forall i :: 0 <= i < |s| ==> !IsSpace(s[i]) }

  /** `c.lower()` on ASCII letters. */
  function LowerChar(c: char): char
  {
    if 'A' <= c <= 'Z' then (c as int + 32) as char else c
  }

  /** `s.lower()`, restricted to ASCII case folding. */
  function Lower(s: string): (r: string)
    ensures |r| == |s|
    ensures forall i :: 0 <= i < |s| ==> r[i] == LowerChar(s[i])
  {
    seq(|s|, i requires 0 <= i < |s| => LowerChar(s[i]))
  }

  lemma LowerIdempotent(s: string)
    ensures Lower(Lower(s)) == Lower(s)
    ensures forall i :: 0 <= i < |s| ==> !('A' <= Lower(s)[i] <= 'Z')
  {
  }

  /** Lowering leaves a string without ASCII capitals as it is. */
  lemma LowerOfLower(s: string)
    requires forall i :: 0 <= i < |s| ==> !('A' <= s[i] <= 'Z')
    ensures Lower(s) == s
  {
  }

  lemma LowerKeepsSpaces(s: string)
    ensures forall i :: 0 <= i < |s| ==> (IsSpace(Lower(s)[i]) <==> IsSpace(s[i]))
  {
  }

  /** `s.strip()`: `s` without its leading and trailing whitespace. */
  function Strip(s: string): (r: string)
    ensures |r| == 0 || (!IsSpace(r[0]) && !IsSpace(r[|r| - 1]))
    ensures RemoveSpaces(r) == RemoveSpaces(s)
    ensures forall i :: 0 <= i < |r| ==> r[i] in s
    ensures NoSpace(s) ==> r == s
    decreases |s|
  {
    if |s| == 0 then s
    else if IsSpace(s[0]) then
      Strip(s[1..])
    else if IsSpace(s[|s| - 1]) then
      var front := s[..|s| - 1];
      assert s == front + [s[|s| - 1]];
      RemoveSpacesAppend(front, [s[|s| - 1]]);
      Strip(front)
    else s
  }

  /** The characters of `s` other than whitespace, in order. */
  function RemoveSpaces(s: string): (r: string)
  {
    if |s| == 0 then "" else (if IsSpace(s[0]) then "" else [s[0]]) + RemoveSpaces(s[1..])
  }

  lemma {:induction false} RemoveSpacesAppend(a: string, b: string)
    ensures RemoveSpaces(a + b) == RemoveSpaces(a) + RemoveSpaces(b)
    decreases |a|
  {
    if |a| > 0 {
      assert (a + b)[1..] == a[1..] + b;
      RemoveSpacesAppend(a[1..], b);
    } else {
      assert a + b == b;
    }
  }

  lemma {:induction false} RemoveSpacesOfWord(w: string)
    requires NoSpace(w)
    ensures RemoveSpaces(w) == w
    decreases |w|
  {
    if |w| > 0 {
      RemoveSpacesOfWord(w[1..]);
      assert [w[0]] + w[1..] == w;
    }
  }

  /** The length of the run of non-whitespace characters at the front of `s`. */
  function WordLength(s: string): (n: nat)
    ensures n <= |s|
    ensures NoSpace(s[..n])
    ensures n == |s| || IsSpace(s[n])
  {
    if |s| == 0 || IsSpace(s[0]) then 0
    else
      var n := 1 + WordLength(s[1..]);
      assert s[..n] == [s[0]] + s[1..][..n - 1];
      n
  }

  /** Concatenation of a sequence of strings. */
  function Concat(words: seq<string>): string
  {
    if |words| == 0 then "" else words[0] + Concat(words[1..])
  }

  /** `s.split()`: the maximal runs of non-whitespace characters of `s`, in order. */
  function SplitWhitespace(s: string): (words: seq<string>)
    ensures forall i :: 0 <= i < |words| ==> |words[i]| > 0 && NoSpace(words[i])
    ensures Concat(words) == RemoveSpaces(s)
    decreases |s|
  {
    if |s| == 0 then []
    else if IsSpace(s[0]) then
      assert RemoveSpaces(s) == RemoveSpaces(s[1..]);
      SplitWhitespace(s[1..])
    else
      var n := WordLength(s);
      var rest := SplitWhitespace(s[n..]);
      var words := [s[..n]] + rest;
      assert words[1..] == rest;
      assert s == s[..n] + s[n..];
      RemoveSpacesAppend(s[..n], s[n..]);
      RemoveSpacesOfWord(s[..n]);
      words
  }

  /** The run of non-whitespace at the front of a word followed by whitespace is the word. */
  lemma {:induction false} WordLengthOfWord(w: string, t: string)
    requires NoSpace(w)
    requires |t| == 0 || IsSpace(t[0])
    ensures WordLength(w + t) == |w|
    decreases |w|
  {
    if |w| > 0 {
      assert (w + t)[1..] == w[1..] + t;
      WordLengthOfWord(w[1..], t);
    }
  }

  /** `split()` skips whitespace in front of the text, whatever whitespace it is. */
  lemma {:induction false} SplitWhitespaceAfterSpaces(sp: string, t: string)
    requires AllSpace(sp)
    ensures SplitWhitespace(sp + t) == SplitWhitespace(t)
    decreases |sp|
  {
    if |sp| > 0 {
      assert (sp + t)[1..] == sp[1..] + t;
      SplitWhitespaceAfterSpaces(sp[1..], t);
    } else {
      assert sp + t == t;
    }
  }

  /** A non-empty word without whitespace, followed by the end of the text or by whitespace, is
      one token of `split()`: tokens are maximal runs. */
  lemma SplitWhitespaceAfterWord(w: string, t: string)
    requires |w| > 0 && NoSpace(w)
    requires |t| == 0 || IsSpace(t[0])
    ensures SplitWhitespace(w + t) == [w] + SplitWhitespace(t)
  {
    WordLengthOfWord(w, t);
    assert (w + t)[..|w|] == w && (w + t)[|w|..] == t;
    assert !IsSpace((w + t)[0]);
  }

  /** `split()` recovers the words of a `join` of non-empty words without whitespace by any
      non-empty whitespace separator: a space, a newline, a run of either. */
  lemma {:induction false} SplitWhitespaceJoin(words: seq<string>, sep: string)
    requires |sep| > 0 && AllSpace(sep)
    requires forall i :: 0 <= i < |words| ==> |words[i]| > 0 && NoSpace(words[i])
    ensures SplitWhitespace(Join(words, sep)) == words
    decreases |words|
  {
    if |words| == 1 {
      SplitWhitespaceAfterWord(words[0], "");
      assert words[0] + "" == words[0];
    } else if |words| > 1 {
      var w, rest := words[0], Join(words[1..], sep);
      assert Join(words, sep) == w + (sep + rest);
      SplitWhitespaceAfterWord(w, sep + rest);
      SplitWhitespaceAfterSpaces(sep, rest);
      SplitWhitespaceJoin(words[1..], sep);
      assert words == [w] + words[1..];
    }
  }

  predicate AllSpace(s: string) { forall i :: 0 <= i < |s| ==> IsSpace(s[i]) }

  /** `r` is `s[i..j]` and everything of `s` outside that slice is whitespace. */
  predicate TrimmedSlice(s: string, r: string, i: int, j: int)
  {
    0 <= i <= j <= |s| && r == s[i..j] && AllSpace(s[..i]) && AllSpace(s[j..])
  }

  lemma TrimmedSliceAfterSpace(s: string, r: string, i: int, j: int)
    requires |s| > 0 && IsSpace(s[0]) && TrimmedSlice(s[1..], r, i, j)
    ensures TrimmedSlice(s, r, i + 1, j + 1)
  {
    assert s[1..][i..j] == s[i + 1..j + 1];
    assert s[..i + 1] == [s[0]] + s[1..][..i];
    assert s[j + 1..] == s[1..][j..];
  }

  lemma TrimmedSliceBeforeSpace(s: string, r: string, i: int, j: int)
    requires |s| > 0 && IsSpace(s[|s| - 1]) && TrimmedSlice(s[..|s| - 1], r, i, j)
    ensures TrimmedSlice(s, r, i, j)
  {
    var front := s[..|s| - 1];
    assert front[i..j] == s[i..j] && front[..i] == s[..i];
    assert s[j..] == front[j..] + [s[|s| - 1]];
  }

  /** `strip` cuts a contiguous slice out of `s`, dropping only whitespace on either side. */
  lemma {:induction false} StripSlice(s: string)
    ensures exists i, j :: TrimmedSlice(s, Strip(s), i, j)
    decreases |s|
  {
    if |s| == 0 {
      assert TrimmedSlice(s, Strip(s), 0, 0);
    } else if IsSpace(s[0]) {
      StripSlice(s[1..]);
      var i, j :| TrimmedSlice(s[1..], Strip(s[1..]), i, j);
      TrimmedSliceAfterSpace(s, Strip(s[1..]), i, j);
      assert Strip(s) == Strip(s[1..]);
      assert TrimmedSlice(s, Strip(s), i + 1, j + 1);
    } else if IsSpace(s[|s| - 1]) {
      var front := s[..|s| - 1];
      StripSlice(front);
      var i, j :| TrimmedSlice(front, Strip(front), i, j);
      TrimmedSliceBeforeSpace(s, Strip(front), i, j);
      assert Strip(s) == Strip(front);
      assert TrimmedSlice(s, Strip(s), i, j);
    } else {
      assert s[|s|..] == [];
      assert TrimmedSlice(s, Strip(s), 0, |s|);
    }
  }
}
