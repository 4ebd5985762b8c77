/**
 * `fragment_time_to_float`: an alignment time such as "0:00:14.920" is
 * matched against `^(\d+):(\d+):(\d+).(\d+)$` and read as
 * `h*3600 + m*60 + s + f/1000` seconds.
 *
 * The match follows Python's `re` semantics: the fourth separator is an
 * unescaped `.`, so it is any character but a newline; `$` also matches just
 * before a final newline; and the third group is greedy, so when the
 * separator is itself a digit the third group takes all but the last two
 * digits. The fourth group is not scaled by its length: "14.92" reads as 14
 * seconds and 92 milliseconds.
 */
module Timestamp {
  import opened PyStr
  import opened Wrappers

  /** The four captured groups and the character the `.` matched. */
  datatype Groups = Groups(hours: string, minutes: string, seconds: string, sep: char, fraction: string)

  /** The `ValueError` raised for a time the pattern does not match. */
  datatype ParseError = FailedToParse(fragmentTime: string)

  /** What `\d+` matches (ASCII digits). */
  predicate Digits(s: string) {
    |s| >= 1 && AllDigits(s)
  }

  /** The text the groups and the separator spell out, without the optional final newline. */
  function Assemble(g: Groups): string {
    g.hours + [':'] + g.minutes + [':'] + g.seconds + [g.sep] + g.fraction
  }

  /** `s` matches the pattern with these groups. */
  predicate Decomposes(s: string, g: Groups) {
    GroupsShape(g) && (s == Assemble(g) || s == Assemble(g) + "\n")
  }

  /** The groups are what the four `\d+` and the `.` match. */
  predicate GroupsShape(g: Groups) {
    Digits(g.hours) && Digits(g.minutes) && Digits(g.seconds) && Digits(g.fraction) && g.sep != '\n'
  }

  /** The end of the digit run that starts at `i`, looking no further than `end`. */
  function DigitRun(s: string, i: nat, end: nat): (k: nat)
    requires i <= end <= |s|
    ensures i <= k <= end
    ensures k < end ==> !IsDigit(s[k])
    decreases end - i
  {
    if i < end && IsDigit(s[i]) then DigitRun(s, i + 1, end) else i
  }

  lemma {:induction false} DigitRunDigits(s: string, i: nat, end: nat)
    requires i <= end <= |s|
    ensures forall j :: i <= j < DigitRun(s, i, end) ==> IsDigit(s[j])
    decreases end - i
  {
    if i < end && IsDigit(s[i]) {
      DigitRunDigits(s, i + 1, end);
    }
  }

  /** A digit run ends at the first non-digit. */
  lemma {:induction false} DigitRunAt(s: string, i: nat, j: nat, end: nat)
    requires i <= j <= end <= |s|
    requires forall k :: i <= k < j ==> IsDigit(s[k])
    requires j < end ==> !IsDigit(s[j])
    ensures DigitRun(s, i, end) == j
    decreases j - i
  {
    if i < j {
      DigitRunAt(s, i + 1, j, end);
    }
  }

  /** Where the match has to end: before a final newline, if there is one. */
  function MatchEnd(s: string): (e: nat)
    ensures e <= |s|
  {
    if |s| > 0 && s[|s| - 1] == '\n' then |s| - 1 else |s|
  }

  /**
   * Where a match cuts the time: the hours end at `h` (a ':'), the minutes at
   * `m` (a ':'), the seconds at `k` (the character `.` matched), the
   * fraction at `e` (the end, or the final newline).
   */
  datatype Cut = Cut(h: nat, m: nat, k: nat, e: nat)

  predicate DigitsBetween(s: string, i: nat, j: nat)
    requires i <= j <= |s|
  {
    forall x :: i <= x < j ==> IsDigit(s[x])
  }

  /** `(\d+).(\d+)` matches `s[a..e]` with the seconds ending at `k`. */
  predicate TailCut(s: string, a: nat, k: nat, e: nat) {
    && a < k && k + 1 < e && e <= |s|
    && DigitsBetween(s, a, k) && s[k] != '\n' && DigitsBetween(s, k + 1, e)
  }

  /** The pattern matches `s` with these boundaries. */
  predicate ValidCut(s: string, c: Cut) {
    && 0 < c.h && c.h + 1 < c.m && c.e == MatchEnd(s) && c.m < c.e
    && DigitsBetween(s, 0, c.h) && s[c.h] == ':'
    && DigitsBetween(s, c.h + 1, c.m) && s[c.m] == ':'
    && TailCut(s, c.m + 1, c.k, c.e)
  }

  /**
   * The backtracking of `(\d+).(\d+)$` over `s[a..e]`: the seconds take the
   * whole digit run, or, when the run reaches the end, all of it but the
   * last two digits.
   */
  function MatchTail(s: string, a: nat, e: nat): (r: Option<nat>)
    requires a <= e <= |s|
    ensures r.Some? ==> TailCut(s, a, r.value, e)
  {
    var l := DigitRun(s, a, e);
    var k := if l == e then e - 2 else l;
    if k <= a || k + 2 > e || s[k] == '\n' || DigitRun(s, k + 1, e) != e then None
    else
      DigitRunDigits(s, a, e);
      DigitRunDigits(s, k + 1, e);
      Some(k)
  }

  /** The tail match finds a cut whenever there is one, and ends the seconds as late as any. */
  lemma MatchTailComplete(s: string, a: nat, k: nat, e: nat)
    requires TailCut(s, a, k, e)
    ensures MatchTail(s, a, e).Some? && MatchTail(s, a, e).value >= k
  {
    var l := DigitRun(s, a, e);
    DigitRunDigits(s, a, e);
    assert l >= k;
    if l == e {
      assert IsDigit(s[e - 2]) && IsDigit(s[e - 1]);
      DigitRunAt(s, e - 1, e, e);
    } else {
      assert l == k;
      DigitRunAt(s, k + 1, e, e);
    }
  }

  /** The backtracking search of `re.match`, as boundaries. */
  function MatchCut(s: string): (r: Option<Cut>)
    ensures r.Some? ==> ValidCut(s, r.value)
  {
    var h := DigitRun(s, 0, |s|);
    if h == 0 || h == |s| || s[h] != ':' then None
    else
      var m := DigitRun(s, h + 1, |s|);
      var e := MatchEnd(s);
      if m == h + 1 || m >= e || s[m] != ':' then None
      else
        match MatchTail(s, m + 1, e)
        case None => None
        case Some(k) =>
          DigitRunDigits(s, 0, |s|);
          DigitRunDigits(s, h + 1, |s|);
          Some(Cut(h, m, k, e))
  }

  /** The groups at the given boundaries. */
  function GroupsAt(s: string, c: Cut): Groups
    requires ValidCut(s, c)
  {
    Groups(s[..c.h], s[c.h + 1..c.m], s[c.m + 1..c.k], s[c.k], s[c.k + 1..c.e])
  }

  /** `re.match(...)`: the groups, or `None` when the time does not match. */
  function MatchGroups(s: string): Option<Groups>
  {
    match MatchCut(s)
    case None => None
    case Some(c) => Some(GroupsAt(s, c))
  }

  /** The character of `Assemble(g)` at each position. */
  function AssembledAt(g: Groups, x: nat): char
    requires x < CutOf(g).e
  {
    var c := CutOf(g);
    if x < c.h then g.hours[x]
    else if x == c.h then ':'
    else if x < c.m then g.minutes[x - c.h - 1]
    else if x == c.m then ':'
    else if x < c.k then g.seconds[x - c.m - 1]
    else if x == c.k then g.sep
    else g.fraction[x - c.k - 1]
  }

  lemma AssembleIndex(g: Groups)
    ensures |Assemble(g)| == CutOf(g).e
    ensures forall x :: 0 <= x < CutOf(g).e ==> Assemble(g)[x] == AssembledAt(g, x)
  {
  }

  lemma PrefixStep(s: string, i: nat, j: nat)
    requires i <= j <= |s|
    ensures s[..i] + s[i..j] == s[..j]
  {
  }

  /** Cutting a string at two colons and one more position, then gluing it back, gives it back. */
  lemma GlueAt(s: string, h: nat, m: nat, k: nat, e: nat)
    requires h < m < k < e <= |s| && s[h] == ':' && s[m] == ':'
    ensures s[..h] + [':'] + s[h + 1..m] + [':'] + s[m + 1..k] + [s[k]] + s[k + 1..e] == s[..e]
  {
    var p1 := s[..h] + [':'];
    assert p1 == s[..h + 1] by {
      assert s[h..h + 1] == [':'];
      PrefixStep(s, h, h + 1);
    }
    var p2 := p1 + s[h + 1..m];
    assert p2 == s[..m] by {
      PrefixStep(s, h + 1, m);
    }
    var p3 := p2 + [':'];
    assert p3 == s[..m + 1] by {
      assert s[m..m + 1] == [':'];
      PrefixStep(s, m, m + 1);
    }
    var p4 := p3 + s[m + 1..k];
    assert p4 == s[..k] by {
      PrefixStep(s, m + 1, k);
    }
    var p5 := p4 + [s[k]];
    assert p5 == s[..k + 1] by {
      assert s[k..k + 1] == [s[k]];
      PrefixStep(s, k, k + 1);
    }
    assert p5 + s[k + 1..e] == s[..e] by {
      PrefixStep(s, k + 1, e);
    }
  }

  /** Gluing the groups at valid boundaries back together gives the matched text. */
  lemma AssembleGroupsAt(s: string, c: Cut)
    requires ValidCut(s, c)
    ensures Assemble(GroupsAt(s, c)) == s[..c.e]
  {
    GlueAt(s, c.h, c.m, c.k, c.e);
  }

  /** The groups at valid boundaries spell the input out. */
  lemma GroupsAtDecompose(s: string, c: Cut)
    requires ValidCut(s, c)
    ensures Decomposes(s, GroupsAt(s, c))
  {
    AssembleGroupsAt(s, c);
    if c.e < |s| {
      assert s == s[..c.e] + "\n";
    } else {
      assert s[..c.e] == s;
    }
  }

  /** Whatever the match returns is a decomposition of the input. */
  lemma MatchGroupsSound(s: string)
    requires MatchGroups(s).Some?
    ensures Decomposes(s, MatchGroups(s).value)
  {
    GroupsAtDecompose(s, MatchCut(s).value);
  }

  /** The boundaries of a decomposition. */
  function CutOf(g: Groups): Cut {
    var h := |g.hours|;
    var m := h + 1 + |g.minutes|;
    var k := m + 1 + |g.seconds|;
    Cut(h, m, k, k + 1 + |g.fraction|)
  }

  /** The matched text of `s`, character by character, is the groups'. */
  predicate Spelled(s: string, g: Groups) {
    && GroupsShape(g) && MatchEnd(s) == CutOf(g).e
    && forall x :: 0 <= x < CutOf(g).e ==> s[x] == AssembledAt(g, x)
  }

  /** Inside a decomposed time, each character is the one the groups put there. */
  lemma DecompositionChars(s: string, g: Groups)
    requires Decomposes(s, g)
    ensures Spelled(s, g)
  {
    var t := Assemble(g);
    AssembleIndex(g);
    assert forall x :: 0 <= x < |t| ==> s[x] == t[x];
    assert t[|t| - 1] == g.fraction[|g.fraction| - 1];
  }

  /** A decomposition sits at valid boundaries. */
  lemma DecompositionValid(s: string, g: Groups)
    requires Spelled(s, g)
    ensures ValidCut(s, CutOf(g))
  {
    var c := CutOf(g);
    assert DigitsBetween(s, 0, c.h) by {
      forall x | 0 <= x < c.h
        ensures IsDigit(s[x])
      {
        assert s[x] == AssembledAt(g, x);
      }
    }
    assert DigitsBetween(s, c.h + 1, c.m) by {
      forall x | c.h + 1 <= x < c.m
        ensures IsDigit(s[x])
      {
        assert s[x] == AssembledAt(g, x);
      }
    }
    assert DigitsBetween(s, c.m + 1, c.k) by {
      forall x | c.m + 1 <= x < c.k
        ensures IsDigit(s[x])
      {
        assert s[x] == AssembledAt(g, x);
      }
    }
    assert DigitsBetween(s, c.k + 1, c.e) by {
      forall x | c.k + 1 <= x < c.e
        ensures IsDigit(s[x])
      {
        assert s[x] == AssembledAt(g, x);
      }
    }
    assert s[c.h] == AssembledAt(g, c.h);
    assert s[c.m] == AssembledAt(g, c.m);
    assert s[c.k] == AssembledAt(g, c.k);
  }

  lemma SliceIs(s: string, i: nat, j: nat, piece: string)
    requires i <= j <= |s| && |piece| == j - i
    requires forall x :: 0 <= x < |piece| ==> s[i + x] == piece[x]
    ensures s[i..j] == piece
  {
  }

  /** The groups of a decomposition sit between its boundaries. */
  lemma SpelledHours(s: string, g: Groups)
    requires Spelled(s, g)
    ensures forall x :: 0 <= x < |g.hours| ==> s[x] == g.hours[x]
  {
    forall x | 0 <= x < |g.hours|
      ensures s[x] == g.hours[x]
    {
      assert s[x] == AssembledAt(g, x);
    }
  }

  lemma SpelledMinutes(s: string, g: Groups)
    requires Spelled(s, g)
    ensures var c := CutOf(g); forall x :: 0 <= x < |g.minutes| ==> s[c.h + 1 + x] == g.minutes[x]
  {
    var c := CutOf(g);
    forall x | 0 <= x < |g.minutes|
      ensures s[c.h + 1 + x] == g.minutes[x]
    {
      assert s[c.h + 1 + x] == AssembledAt(g, c.h + 1 + x);
    }
  }

  lemma SpelledSeconds(s: string, g: Groups)
    requires Spelled(s, g)
    ensures var c := CutOf(g); forall x :: 0 <= x < |g.seconds| ==> s[c.m + 1 + x] == g.seconds[x]
  {
    var c := CutOf(g);
    forall x | 0 <= x < |g.seconds|
      ensures s[c.m + 1 + x] == g.seconds[x]
    {
      assert s[c.m + 1 + x] == AssembledAt(g, c.m + 1 + x);
    }
  }

  lemma SpelledFraction(s: string, g: Groups)
    requires Spelled(s, g)
    ensures var c := CutOf(g);
      && (forall x :: 0 <= x < |g.fraction| ==> s[c.k + 1 + x] == g.fraction[x])
      && s[c.k] == g.sep
  {
    var c := CutOf(g);
    forall x | 0 <= x < |g.fraction|
      ensures s[c.k + 1 + x] == g.fraction[x]
    {
      assert s[c.k + 1 + x] == AssembledAt(g, c.k + 1 + x);
    }
    assert s[c.k] == AssembledAt(g, c.k);
  }

  /** A decomposition is the groups found at its boundaries. */
  lemma DecompositionCut(s: string, g: Groups)
    requires Spelled(s, g)
    ensures ValidCut(s, CutOf(g)) && GroupsAt(s, CutOf(g)) == g
  {
    DecompositionValid(s, g);
    SpelledHours(s, g);
    SpelledMinutes(s, g);
    SpelledSeconds(s, g);
    SpelledFraction(s, g);
    var c := CutOf(g);
    SliceIs(s, 0, c.h, g.hours);
    SliceIs(s, c.h + 1, c.m, g.minutes);
    SliceIs(s, c.m + 1, c.k, g.seconds);
    SliceIs(s, c.k + 1, c.e, g.fraction);
  }

  /**
   * The search finds a cut whenever there is one, and ends the seconds as
   * late as any valid cut does.
   */
  lemma MatchCutComplete(s: string, c: Cut)
    requires ValidCut(s, c)
    ensures MatchCut(s).Some? && MatchCut(s).value.k >= c.k
  {
    DigitRunAt(s, 0, c.h, |s|);
    DigitRunAt(s, c.h + 1, c.m, |s|);
    MatchTailComplete(s, c.m + 1, c.k, c.e);
  }

  lemma SpelledFound(s: string, g: Groups)
    requires Spelled(s, g)
    ensures MatchGroups(s).Some?
    ensures |g.seconds| <= |MatchGroups(s).value.seconds|
  {
    DecompositionCut(s, g);
    MatchCutComplete(s, CutOf(g));
  }

  /**
   * Every decomposition is found, and the one found has the longest third
   * group: the pattern matches exactly the decomposable times, and
   * backtracking gives the third group as much as it can.
   */
  lemma MatchGroupsComplete(s: string, g: Groups)
    requires Decomposes(s, g)
    ensures MatchGroups(s).Some?
    ensures |g.seconds| <= |MatchGroups(s).value.seconds|
  {
    DecompositionChars(s, g);
    SpelledFound(s, g);
  }

  /** Milliseconds, the four values combined exactly. */
  function Millis(g: Groups): nat
    requires Digits(g.hours) && Digits(g.minutes) && Digits(g.seconds) && Digits(g.fraction)
  {
    DigitsValue(g.hours) * 3600000 + DigitsValue(g.minutes) * 60000 + DigitsValue(g.seconds) * 1000
      + DigitsValue(g.fraction)
  }

  /** `fragment_time_to_float` in integer milliseconds. */
  function FragmentTimeToMillis(s: string): (r: Result<nat, ParseError>)
    ensures r.Err? ==> r.error == FailedToParse(s)
  {
    match MatchGroups(s)
    case None => Err(FailedToParse(s))
    case Some(g) =>
      MatchGroupsSound(s);
      Ok(Millis(g))
  }

  /** `fragment_time_to_float` as the exact real its formula denotes. */
  function FragmentTimeToSeconds(s: string): (r: Result<real, ParseError>)
    ensures r.Err? ==> r.error == FailedToParse(s)
  {
    match MatchGroups(s)
    case None => Err(FailedToParse(s))
    case Some(g) =>
      MatchGroupsSound(s);
      Ok((DigitsValue(g.hours) * 3600 + DigitsValue(g.minutes) * 60 + DigitsValue(g.seconds)) as real
         + DigitsValue(g.fraction) as real / 1000.0)
  }

  /**
   * A time parses exactly when it decomposes, and then its value is the
   * decomposition's value read with the longest possible seconds group.
   */
  lemma FragmentTimeParses(s: string)
    ensures FragmentTimeToMillis(s).Ok? <==> exists g :: Decomposes(s, g)
    ensures FragmentTimeToMillis(s).Ok? ==>
      exists g :: Decomposes(s, g) && FragmentTimeToMillis(s).value == Millis(g)
              && forall g' :: Decomposes(s, g') ==> |g'.seconds| <= |g.seconds|
  {
    if MatchGroups(s).Some? {
      var g := MatchGroups(s).value;
      MatchGroupsSound(s);
      forall g' | Decomposes(s, g')
        ensures |g'.seconds| <= |g.seconds|
      {
        MatchGroupsComplete(s, g');
      }
    } else {
      forall g | Decomposes(s, g)
        ensures false
      {
        MatchGroupsComplete(s, g);
      }
    }
  }

  /** The seconds are the milliseconds divided by 1000. */
  lemma SecondsAreMillis(s: string)
    ensures FragmentTimeToSeconds(s).Ok? <==> FragmentTimeToMillis(s).Ok?
    ensures FragmentTimeToSeconds(s).Ok? ==>
      FragmentTimeToSeconds(s).value == FragmentTimeToMillis(s).value as real / 1000.0
  {
  }

  /** Two valid cuts agree on the hours, the minutes and the end. */
  lemma ValidCutsAgree(s: string, c1: Cut, c2: Cut)
    requires ValidCut(s, c1) && ValidCut(s, c2)
    ensures c1.h == c2.h && c1.m == c2.m && c1.e == c2.e
  {
    DigitRunAt(s, 0, c1.h, |s|);
    DigitRunAt(s, 0, c2.h, |s|);
    DigitRunAt(s, c1.h + 1, c1.m, |s|);
    DigitRunAt(s, c1.h + 1, c2.m, |s|);
  }

  /**
   * The match is a given valid cut when no later cut can end the seconds:
   * the character after them is not a digit, or only two characters are left.
   */
  lemma MatchCutAt(s: string, c: Cut)
    requires ValidCut(s, c)
    requires !IsDigit(s[c.k]) || c.k + 2 == c.e
    ensures MatchCut(s) == Some(c)
  {
    MatchCutComplete(s, c);
    var r := MatchCut(s).value;
    ValidCutsAgree(s, c, r);
    assert r.k <= c.k;
  }

  /**
   * With a separator that is not a digit, the groups are exactly the pieces
   * between the separators, with or without a final newline.
   */
  lemma NonDigitSeparator(g: Groups)
    requires Digits(g.hours) && Digits(g.minutes) && Digits(g.seconds) && Digits(g.fraction)
    requires !IsDigit(g.sep) && g.sep != '\n'
    ensures FragmentTimeToMillis(Assemble(g)) == Ok(Millis(g))
    ensures FragmentTimeToMillis(Assemble(g) + "\n") == Ok(Millis(g))
  {
    var s := Assemble(g);
    DecompositionChars(s, g);
    DecompositionCut(s, g);
    MatchCutAt(s, CutOf(g));
    DecompositionChars(s + "\n", g);
    DecompositionCut(s + "\n", g);
    MatchCutAt(s + "\n", CutOf(g));
  }

  /**
   * With a digit in place of the dot, the seconds group takes all but the
   * last two digits of the seconds, separator and fraction.
   */
  lemma DigitSeparator(g: Groups)
    requires Digits(g.hours) && Digits(g.minutes) && Digits(g.seconds) && Digits(g.fraction)
    requires IsDigit(g.sep) && |g.fraction| == 1
    ensures FragmentTimeToMillis(Assemble(g)) == Ok(Millis(g))
  {
    var s := Assemble(g);
    DecompositionChars(s, g);
    DecompositionCut(s, g);
    MatchCutAt(s, CutOf(g));
  }

  /** The groups of the worked example below, and their value. */
  lemma ExampleDocstringGroups(g: Groups)
    requires g == Groups("0", "00", "14", '.', "920")
    ensures Digits(g.hours) && Digits(g.minutes) && Digits(g.seconds) && Digits(g.fraction)
    ensures Millis(g) == 14920 && Assemble(g) == "0:00:14.920"
  {
    var f := g.fraction;
    assert DigitsValue(f) == 920 by {
      assert f[..2][..1] == f[..1] && f[..1][..0] == [];
      assert DigitsValue(f[..1]) == 9;
      assert DigitsValue(f[..2]) == 92;
    }
    var t := g.seconds;
    assert DigitsValue(t) == 14 by {
      assert t[..1][..0] == [];
      assert DigitsValue(t[..1]) == 1;
    }
  }

  /** The worked example of the docstring, with and without a final newline. */
  lemma ExampleDocstring(s: string)
    requires s == "0:00:14.920"
    ensures FragmentTimeToMillis(s) == Ok(14920)
    ensures FragmentTimeToMillis(s + "\n") == Ok(14920)
  {
    var g := Groups("0", "00", "14", '.', "920");
    ExampleDocstringGroups(g);
    NonDigitSeparator(g);
  }

  /** The fraction is not scaled: "0:00:14.92" is 14 seconds and 92 milliseconds, not 920. */
  lemma ExampleShortFraction()
    ensures FragmentTimeToMillis("0:00:14.92") == Ok(14092)
  {
    var g := Groups("0", "00", "14", '.', "92");
    assert Millis(g) == 14092;
    assert Assemble(g) == "0:00:14.92";
    NonDigitSeparator(g);
  }

  /** "1:2:345" reads as 1 hour, 2 minutes, 3 seconds and 5 milliseconds. */
  lemma ExampleDigitSeparator()
    ensures FragmentTimeToMillis("1:2:345") == Ok(3723005)
  {
    var g := Groups("1", "2", "3", '4', "5");
    assert Millis(g) == 3723005;
    assert Assemble(g) == "1:2:345";
    DigitSeparator(g);
  }

  /** A time without digits before its first character does not parse. */
  lemma NoLeadingDigit(s: string)
    requires s == [] || !IsDigit(s[0])
    ensures FragmentTimeToMillis(s) == Err(FailedToParse(s))
  {
    DigitRunAt(s, 0, 0, |s|);
  }

  lemma ExampleMalformed()
    ensures FragmentTimeToMillis("bad") == Err(FailedToParse("bad"))
  {
    NoLeadingDigit("bad");
  }
}
