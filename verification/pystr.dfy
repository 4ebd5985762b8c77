/**
 * The Python `str` built-ins the two scripts rely on, written out on
 * `seq<char>`: `strip`/`lstrip`/`rstrip` with and without a character set,
 * `split` on one separator character, `replace(c, '')`, `endswith`,
 * `lower`, `zfill`, `str(int)` and `int(str)` on decimal digits.
 *
 * The recursive definitions peel characters off the END of a string
 * (`s[..|s| - 1]`), the order in which the scripts' loops consume them.
 */
module PyStr {

  /** The Japanese full stop, the sentence terminator of both scripts. */
  const Terminator: char := '\U{3002}'

  /**
   * Python's `str.isspace()`, the whitespace a bare `strip()` removes: the
   * 29 characters U+0009-U+000D, U+001C-U+0020, U+0085, U+00A0, U+1680,
   * U+2000-U+200A, U+2028, U+2029, U+202F, U+205F and U+3000.
   */
  predicate IsSpace(c: char) {
    if c <= ' ' then '\t' <= c <= '\r' || '\U{1c}' <= c
    else if c < '\U{2000}' then c == '\U{85}' || c == '\U{a0}' || c == '\U{1680}'
    else c <= '\U{200a}' || c == '\U{2028}' || c == '\U{2029}' || c == '\U{202f}' || c == '\U{205f}' || c == '\U{3000}'
  }

  /** No leading and no trailing whitespace. */
  predicate Stripped(s: string) {
    s == [] || (!IsSpace(s[0]) && !IsSpace(s[|s| - 1]))
  }

  predicate AllSpace(s: string) {
    forall i :: 0 <= i < |s| ==> IsSpace(s[i])
  }

  /** The first position at or after `i` that does not hold whitespace (`|s|` if none). */
  function SkipSpace(s: string, i: nat): (k: nat)
    requires i <= |s|
    ensures i <= k <= |s|
    ensures k < |s| ==> !IsSpace(s[k])
    decreases |s| - i
  {
    if i < |s| && IsSpace(s[i]) then SkipSpace(s, i + 1) else i
  }

  lemma {:induction false} SkipSpaceSkips(s: string, i: nat)
    requires i <= |s|
    ensures forall j :: i <= j < SkipSpace(s, i) ==> IsSpace(s[j])
    decreases |s| - i
  {
    if i < |s| && IsSpace(s[i]) {
      SkipSpaceSkips(s, i + 1);
    }
  }

  /** `s.lstrip()`: drops the leading whitespace and nothing else. */
  function LStrip(s: string): (r: string)
    ensures |r| <= |s| && s == s[..|s| - |r|] + r
    ensures r == [] || !IsSpace(r[0])
  {
    var k := SkipSpace(s, 0);
    assert s == s[..k] + s[k..];
    s[k..]
  }

  /** What `lstrip` drops is whitespace. */
  lemma LStripDropsSpace(s: string)
    ensures AllSpace(s[..|s| - |LStrip(s)|])
  {
    SkipSpaceSkips(s, 0);
  }

  /** `s.rstrip()`: drops the trailing whitespace and nothing else. */
  function RStrip(s: string): (r: string)
    ensures |r| <= |s| && r == s[..|r|]
    ensures r == [] || !IsSpace(r[|r| - 1])
  {
    if |s| > 0 && IsSpace(s[|s| - 1]) then RStrip(s[..|s| - 1]) else s
  }

  /** What `rstrip` drops is whitespace. */
  lemma {:induction false} RStripDropsSpace(s: string)
    ensures AllSpace(s[|RStrip(s)|..])
  {
    if |s| > 0 && IsSpace(s[|s| - 1]) {
      RStripDropsSpace(s[..|s| - 1]);
      var k := |RStrip(s)|;
      assert forall i :: k <= i < |s| - 1 ==> s[i] == s[..|s| - 1][i];
    }
  }

  /** `s.lstrip().rstrip()` (the same string as `s.strip()`). */
  function Strip(s: string): (r: string)
    ensures Stripped(r)
    ensures |r| <= |s|
  {
    var t := LStrip(s);
    var r := RStrip(t);
    assert r != [] ==> r[0] == t[0];
    r
  }

  /** `strip` empties exactly the all-whitespace strings. */
  lemma StripEmpty(s: string)
    ensures Strip(s) == [] <==> AllSpace(s)
  {
    var t := LStrip(s);
    LStripDropsSpace(s);
    RStripDropsSpace(t);
    if t == [] {
      assert s[..|s| - |t|] == s;
    } else {
      assert t[0] == s[|s| - |t|];
    }
  }

  /** `rstrip` removes a whitespace tail and stops at the first other character. */
  lemma {:induction false} RStripSpaceTail(stem: string, tail: string)
    requires stem == [] || !IsSpace(stem[|stem| - 1])
    requires AllSpace(tail)
    ensures RStrip(stem + tail) == stem
  {
    if |tail| == 0 {
      assert stem + tail == stem;
    } else {
      assert (stem + tail)[..|stem + tail| - 1] == stem + tail[..|tail| - 1];
      RStripSpaceTail(stem, tail[..|tail| - 1]);
    }
  }

  /** A string that does not start with whitespace is left alone by `lstrip`. */
  lemma LStripNoSpace(s: string)
    requires s == [] || !IsSpace(s[0])
    ensures LStrip(s) == s
  {
    assert s[0..] == s;
  }

  /** A stripped text followed by whitespace strips to the text. */
  lemma StripTrailing(s: string, tail: string)
    requires s != [] && Stripped(s)
    requires AllSpace(tail)
    ensures Strip(s + tail) == s
  {
    LStripNoSpace(s + tail);
    RStripSpaceTail(s, tail);
  }

  /** Stripping never brings in a character that was not there. */
  lemma StripKeepsOut(s: string, c: char)
    requires c !in s
    ensures c !in Strip(s)
  {
    var t := LStrip(s);
    assert s == s[..|s| - |t|] + t;
    assert RStrip(t) == t[..|RStrip(t)|];
  }

  /** Stripping a stripped string changes nothing. */
  lemma StripStripped(s: string)
    requires Stripped(s)
    ensures Strip(s) == s
  {
    LStripNoSpace(s);
  }

  /** `s.rstrip(chars)`: drops trailing characters that belong to the SET `chars`. */
  function RStripChars(s: string, chars: set<char>): (r: string)
    ensures |r| <= |s| && r == s[..|r|]
    ensures forall i :: |r| <= i < |s| ==> s[i] in chars
    ensures r == [] || r[|r| - 1] !in chars
  {
    if |s| > 0 && s[|s| - 1] in chars then RStripChars(s[..|s| - 1], chars) else s
  }

  /** `rstrip(chars)` removes a tail made of `chars` and stops at the first other character. */
  lemma {:induction false} RStripCharsTail(stem: string, tail: string, chars: set<char>)
    requires stem == [] || stem[|stem| - 1] !in chars
    requires forall i :: 0 <= i < |tail| ==> tail[i] in chars
    ensures RStripChars(stem + tail, chars) == stem
  {
    if |tail| == 0 {
      assert stem + tail == stem;
    } else {
      assert (stem + tail)[..|stem + tail| - 1] == stem + tail[..|tail| - 1];
      RStripCharsTail(stem, tail[..|tail| - 1], chars);
    }
  }

  /** `sep.join(pieces)`. */
  function Join(pieces: seq<string>, sep: char): string
  {
    if |pieces| == 0 then []
    else if |pieces| == 1 then pieces[0]
    else Join(pieces[..|pieces| - 1], sep) + [sep] + pieces[|pieces| - 1]
  }

  /** `s.split(sep)` for a one-character separator: never empty, keeps empty pieces. */
  function Split(s: string, sep: char): (r: seq<string>)
    ensures |r| >= 1
  {
    if |s| == 0 then [[]]
    else
      var init := Split(s[..|s| - 1], sep);
      var c := s[|s| - 1];
      if c == sep then init + [[]]
      else init[..|init| - 1] + [init[|init| - 1] + [c]]
  }

  /** No piece of a split holds the separator. */
  lemma {:induction false} SplitPiecesFree(s: string, sep: char)
    ensures forall i :: 0 <= i < |Split(s, sep)| ==> sep !in Split(s, sep)[i]
  {
    if |s| > 0 {
      var init := Split(s[..|s| - 1], sep);
      SplitPiecesFree(s[..|s| - 1], sep);
      var r := Split(s, sep);
      assert forall i :: 0 <= i < |r| - 1 ==> r[i] == init[i];
    }
  }

  /** Joining the pieces of a split gives the string back. */
  lemma {:induction false} SplitJoinBack(s: string, sep: char)
    ensures Join(Split(s, sep), sep) == s
  {
    if |s| > 0 {
      var pre := s[..|s| - 1];
      var c := s[|s| - 1];
      var init := Split(pre, sep);
      SplitJoinBack(pre, sep);
      var r := Split(s, sep);
      assert s == pre + [c];
      if c == sep {
        assert r[..|r| - 1] == init;
      } else {
        JoinAppendChar(init, sep, c);
      }
    }
  }

  /** Extending the last piece extends the joined string. */
  lemma JoinAppendChar(pieces: seq<string>, sep: char, c: char)
    requires |pieces| >= 1
    ensures Join(pieces[..|pieces| - 1] + [pieces[|pieces| - 1] + [c]], sep) == Join(pieces, sep) + [c]
  {
    var n := |pieces|;
    var r := pieces[..n - 1] + [pieces[n - 1] + [c]];
    if n > 1 {
      assert r[..n - 1] == pieces[..n - 1];
      assert Join(r, sep) == Join(pieces[..n - 1], sep) + [sep] + (pieces[n - 1] + [c]);
    }
  }

  /** Number of occurrences of `c` in `s`. */
  function Count(s: string, c: char): nat
  {
    if |s| == 0 then 0 else Count(s[..|s| - 1], c) + (if s[|s| - 1] == c then 1 else 0)
  }

  lemma {:induction false} SplitCount(s: string, sep: char)
    ensures |Split(s, sep)| == Count(s, sep) + 1
  {
    if |s| > 0 {
      SplitCount(s[..|s| - 1], sep);
    }
  }

  /** A separator followed by a separator-free tail adds the tail as the last piece. */
  lemma {:induction false} SplitSuffix(a: string, sep: char, b: string)
    requires sep !in b
    ensures Split(a + [sep] + b, sep) == Split(a, sep) + [b]
    decreases |b|
  {
    var s := a + [sep] + b;
    if |b| == 0 {
      assert s == a + [sep] && s[..|s| - 1] == a;
    } else {
      var b' := b[..|b| - 1];
      var c := b[|b| - 1];
      assert s[..|s| - 1] == a + [sep] + b' && s[|s| - 1] == c;
      SplitSuffix(a, sep, b');
      var init := Split(a, sep) + [b'];
      assert init[..|init| - 1] == Split(a, sep);
      assert b' + [c] == b;
    }
  }

  lemma {:induction false} SplitNoSeparator(s: string, sep: char)
    requires sep !in s
    ensures Split(s, sep) == [s]
  {
    if |s| > 0 {
      var pre := s[..|s| - 1];
      SplitNoSeparator(pre, sep);
      assert pre + [s[|s| - 1]] == s;
    }
  }

  /** `split` undoes `join` when no piece holds the separator. */
  lemma {:induction false} SplitJoin(pieces: seq<string>, sep: char)
    requires |pieces| >= 1
    requires forall i :: 0 <= i < |pieces| ==> sep !in pieces[i]
    ensures Split(Join(pieces, sep), sep) == pieces
  {
    if |pieces| == 1 {
      SplitNoSeparator(pieces[0], sep);
    } else {
      var init := pieces[..|pieces| - 1];
      SplitJoin(init, sep);
      SplitSuffix(Join(init, sep), sep, pieces[|pieces| - 1]);
      assert init + [pieces[|pieces| - 1]] == pieces;
    }
  }

  /** `s.replace(c, '')`. */
  function RemoveAll(s: string, c: char): (r: string)
    ensures c !in r
    ensures multiset(r) == multiset(s)[c := 0]
    ensures c !in s ==> r == s
  {
    if |s| == 0 then []
    else
      var pre := s[..|s| - 1];
      var x := s[|s| - 1];
      var rest := RemoveAll(pre, c);
      assert s == pre + [x];
      if x == c then rest else rest + [x]
  }

  /** `replace` works character by character: one character is dropped when it is `c` and kept otherwise. */
  lemma RemoveAllChar(x: char, c: char)
    ensures RemoveAll([x], c) == if x == c then [] else [x]
  {
    assert [x][..0] == [];
  }

  /** `replace` keeps the order of the characters it keeps: it removes `c` from each part of a string separately. */
  lemma {:induction false} RemoveAllAppend(a: string, b: string, c: char)
    ensures RemoveAll(a + b, c) == RemoveAll(a, c) + RemoveAll(b, c)
  {
    if |b| == 0 {
      assert a + b == a;
    } else {
      var pre := b[..|b| - 1];
      var x := b[|b| - 1];
      assert b == pre + [x];
      assert a + b == (a + pre) + [x];
      assert (a + b)[..|a + b| - 1] == a + pre;
      RemoveAllAppend(a, pre, c);
    }
  }

  /** `s.endswith(suffix)`. */
  predicate EndsWith(s: string, suffix: string) {
    |suffix| <= |s| && s[|s| - |suffix|..] == suffix
  }

  /** `str.lower()` restricted to ASCII letters; every other character is kept. */
  function LowerChar(c: char): char {
    if 'A' <= c <= 'Z' then (c as int + 32) as char else c
  }

  function Lower(s: string): (r: string)
    ensures |r| == |s|
    ensures forall i :: 0 <= i < |s| ==> r[i] == LowerChar(s[i])
  {
    seq(|s|, i requires 0 <= i < |s| => LowerChar(s[i]))
  }

  predicate IsDigit(c: char) {
    '0' <= c <= '9'
  }

  predicate AllDigits(s: string) {
    forall i :: 0 <= i < |s| ==> IsDigit(s[i])
  }

  /** `int(s)` on a string of decimal digits (leading zeros allowed). */
  function DigitsValue(s: string): nat
    requires AllDigits(s)
  {
    if |s| == 0 then 0
    else DigitsValue(s[..|s| - 1]) * 10 + (s[|s| - 1] as int - '0' as int)
  }

  function DigitChar(d: nat): (c: char)
    requires d < 10
    ensures IsDigit(c) && c as int - '0' as int == d
  {
    ('0' as int + d) as char
  }

  /** `str(n)` for a non-negative `n`: the shortest decimal numeral of `n`. */
  function NatToDecimal(n: nat): (r: string)
    ensures |r| >= 1 && AllDigits(r)
    ensures DigitsValue(r) == n
    ensures |r| > 1 ==> r[0] != '0'
  {
    if n < 10 then [DigitChar(n)]
    else
      var r := NatToDecimal(n / 10) + [DigitChar(n % 10)];
      assert r[..|r| - 1] == NatToDecimal(n / 10);
      r
  }

  function Zeros(k: nat): (r: string)
    ensures |r| == k && forall i :: 0 <= i < k ==> r[i] == '0'
  {
    seq(k, i => '0')
  }

  /** `s.zfill(width)` on an unsigned numeral: pads with '0' on the left, never truncates. */
  function ZFill(s: string, width: nat): (r: string)
    ensures |r| >= width && |r| >= |s|
    ensures r == Zeros(|r| - |s|) + s
    ensures |s| >= width ==> r == s
    ensures |s| < width ==> |r| == width
  {
    if |s| >= width then s else Zeros(width - |s|) + s
  }

  lemma {:induction false} ZFillShape(s: string, width: nat)
    ensures |ZFill(s, width)| == if |s| >= width then |s| else width
    ensures ZFill(s, width) == Zeros(|ZFill(s, width)| - |s|) + s
  {
    if |s| >= width {
      assert Zeros(0) + s == s;
    }
  }

  /** Leading zeros do not change the value of a numeral. */
  lemma {:induction false} LeadingZerosValue(k: nat, s: string)
    requires AllDigits(s)
    ensures AllDigits(Zeros(k) + s)
    ensures DigitsValue(Zeros(k) + s) == DigitsValue(s)
    decreases |s|, k
  {
    var z := Zeros(k) + s;
    if |s| == 0 {
      assert z == Zeros(k);
      if k > 0 {
        assert z[..|z| - 1] == Zeros(k - 1) + s;
        LeadingZerosValue(k - 1, s);
      }
    } else {
      assert z[..|z| - 1] == Zeros(k) + s[..|s| - 1];
      LeadingZerosValue(k, s[..|s| - 1]);
    }
  }
}
