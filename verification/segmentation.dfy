/**
 * Sentence segmentation of a text file, as `extract_sentences_from_txt_file`
 * does it: every line is trimmed, blank lines are skipped, a non-blank line is
 * split on the Japanese full stop, every piece is trimmed and empty pieces are
 * dropped. The file is given as the sequence of its lines (as `for line in fd`
 * yields them, newline included).
 */
module Segmentation {
  import opened PyStr
  import opened Seqs

  /** What one piece contributes: its trimmed text, unless that is empty. */
  function Kept(piece: string): seq<string>
  {
    var s := Strip(piece);
    if s == [] then [] else [s]
  }

  /** Each piece trimmed, empty ones dropped, order kept (lines 194-197). */
  function KeepNonEmpty(pieces: seq<string>): seq<string>
  {
    FlatMap(Kept, pieces)
  }

  /** The sentences one line of the file yields (lines 191-197). */
  function LineSentences(line: string): seq<string>
  {
    var t := Strip(line);
    if t == [] then [] else KeepNonEmpty(Split(t, Terminator))
  }

  /** The sentences of the whole file, line after line. */
  function Sentences(lines: seq<string>): seq<string>
  {
    FlatMap(LineSentences, lines)
  }

  /** What every yielded sentence looks like. */
  predicate WellFormed(s: string) {
    s != [] && Stripped(s) && Terminator !in s
  }

  /** The generator's outer loop, over the lines of the file (lines 190-192). */
  method ExtractSentences(lines: seq<string>) returns (sentences: seq<string>)
    ensures sentences == Sentences(lines)
    ensures forall i :: 0 <= i < |sentences| ==> WellFormed(sentences[i])
  {
    sentences := [];
    var i := 0;
    while i < |lines|
      invariant 0 <= i <= |lines|
      invariant sentences == Sentences(lines[..i])
    {
      var yielded := ExtractLineSentences(lines[i]);
      assert lines[..i + 1][..i] == lines[..i];
      sentences := sentences + yielded;
      i := i + 1;
    }
    assert lines[..i] == lines;
    SentencesWellFormed(lines);
  }

  /** The generator's inner loop, over the pieces of one line (lines 191-197). */
  method ExtractLineSentences(rawLine: string) returns (sentences: seq<string>)
    ensures sentences == LineSentences(rawLine)
  {
    sentences := [];
    var line := Strip(rawLine);
    if line != [] {
      var pieces := Split(line, Terminator);
      var j := 0;
      while j < |pieces|
        invariant 0 <= j <= |pieces|
        invariant sentences == KeepNonEmpty(pieces[..j])
      {
        var sentence := Strip(pieces[j]);
        assert pieces[..j + 1][..j] == pieces[..j];
        if sentence != [] {
          sentences := sentences + [sentence];
        }
        j := j + 1;
      }
      assert pieces[..j] == pieces;
    }
  }

  /** Sentences come out in line order: the file's sentences are its lines' sentences concatenated. */
  lemma SentencesAppend(a: seq<string>, b: seq<string>)
    ensures Sentences(a + b) == Sentences(a) + Sentences(b)
  {
    FlatMapAppend(LineSentences, a, b);
  }

  lemma {:induction false} KeepNonEmptyWellFormed(pieces: seq<string>)
    requires forall i :: 0 <= i < |pieces| ==> Terminator !in pieces[i]
    ensures forall i :: 0 <= i < |KeepNonEmpty(pieces)| ==> WellFormed(KeepNonEmpty(pieces)[i])
  {
    if |pieces| > 0 {
      var init := pieces[..|pieces| - 1];
      StripKeepsOut(pieces[|pieces| - 1], Terminator);
      KeepNonEmptyWellFormed(init);
      assert KeepNonEmpty(pieces) == KeepNonEmpty(init) + Kept(pieces[|pieces| - 1]);
    }
  }

  lemma LineWellFormed(line: string)
    ensures forall i :: 0 <= i < |LineSentences(line)| ==> WellFormed(LineSentences(line)[i])
  {
    var t := Strip(line);
    if t != [] {
      SplitPiecesFree(t, Terminator);
      KeepNonEmptyWellFormed(Split(t, Terminator));
    }
  }

  /** Every sentence is non-empty, trimmed and free of the terminator. */
  lemma {:induction false} SentencesWellFormed(lines: seq<string>)
    ensures forall i :: 0 <= i < |Sentences(lines)| ==> WellFormed(Sentences(lines)[i])
  {
    if |lines| > 0 {
      LineWellFormed(lines[|lines| - 1]);
      SentencesWellFormed(lines[..|lines| - 1]);
      assert Sentences(lines) == Sentences(lines[..|lines| - 1]) + LineSentences(lines[|lines| - 1]);
    }
  }

  /** A stripped, non-empty piece is kept as it is. */
  lemma KeptStripped(p: string)
    requires p != [] && Stripped(p)
    ensures Kept(p) == [p]
  {
    StripStripped(p);
  }

  /** Pieces that are already trimmed and non-empty are all kept, in order. */
  lemma {:induction false} KeepNonEmptyKeepsAll(pieces: seq<string>)
    requires forall i :: 0 <= i < |pieces| ==> pieces[i] != [] && Stripped(pieces[i])
    ensures KeepNonEmpty(pieces) == pieces
  {
    if |pieces| > 0 {
      var init := pieces[..|pieces| - 1];
      var last := pieces[|pieces| - 1];
      assert KeepNonEmpty(pieces) == KeepNonEmpty(init) + Kept(last);
      assert KeepNonEmpty(init) == init by {
        KeepNonEmptyKeepsAll(init);
      }
      assert Kept(last) == [last] by {
        KeptStripped(last);
      }
      assert init + [last] == pieces;
    }
  }

  /** A blank line yields nothing; a non-blank line without a full stop yields its trimmed self. */
  lemma LineWithoutTerminator(line: string)
    requires Terminator !in line
    ensures LineSentences(line) == if AllSpace(line) then [] else [Strip(line)]
  {
    var t := Strip(line);
    StripEmpty(line);
    if t != [] {
      StripKeepsOut(line, Terminator);
      SplitNoSeparator(t, Terminator);
      KeptStripped(t);
      FlatMapSnoc(Kept, [], t);
      assert [] + [t] == [t];
    }
  }

  /** The characters that carry text: neither whitespace nor the full stop. */
  predicate Ink(c: char) {
    !IsSpace(c) && c != Terminator
  }

  function Visible(s: string): (r: string)
    ensures forall i :: 0 <= i < |r| ==> Ink(r[i])
  {
    if |s| == 0 then []
    else Visible(s[..|s| - 1]) + (if Ink(s[|s| - 1]) then [s[|s| - 1]] else [])
  }

  /** Concatenation of a sequence of strings. */
  function Flatten(ss: seq<string>): string
  {
    if |ss| == 0 then [] else Flatten(ss[..|ss| - 1]) + ss[|ss| - 1]
  }

  lemma {:induction false} VisibleAppend(a: string, b: string)
    ensures Visible(a + b) == Visible(a) + Visible(b)
  {
    if |b| == 0 {
      assert a + b == a;
    } else {
      var b' := b[..|b| - 1];
      assert (a + b)[..|a + b| - 1] == a + b';
      VisibleAppend(a, b');
    }
  }

  lemma {:induction false} VisibleAllSpace(s: string)
    requires AllSpace(s)
    ensures Visible(s) == []
  {
    if |s| > 0 {
      VisibleAllSpace(s[..|s| - 1]);
    }
  }

  lemma {:induction false} FlattenAppend(a: seq<string>, b: seq<string>)
    ensures Flatten(a + b) == Flatten(a) + Flatten(b)
  {
    if |b| == 0 {
      assert a + b == a;
    } else {
      var b' := b[..|b| - 1];
      assert (a + b)[..|a + b| - 1] == a + b';
      FlattenAppend(a, b');
    }
  }

  lemma VisibleLStrip(s: string)
    ensures Visible(LStrip(s)) == Visible(s)
  {
    var t := LStrip(s);
    var k := |s| - |t|;
    LStripDropsSpace(s);
    VisibleAppend(s[..k], t);
    VisibleAllSpace(s[..k]);
  }

  lemma VisibleRStrip(s: string)
    ensures Visible(RStrip(s)) == Visible(s)
  {
    var r := RStrip(s);
    RStripDropsSpace(s);
    assert s == r + s[|r|..];
    VisibleAppend(r, s[|r|..]);
    VisibleAllSpace(s[|r|..]);
  }

  /** Trimming only ever drops whitespace. */
  lemma VisibleStrip(s: string)
    ensures Visible(Strip(s)) == Visible(s)
  {
    VisibleLStrip(s);
    VisibleRStrip(LStrip(s));
  }

  lemma VisibleKept(p: string)
    ensures Visible(Flatten(Kept(p))) == Visible(p)
  {
    VisibleStrip(p);
    var s := Strip(p);
    if s != [] {
      assert Kept(p) == [s];
      assert [s][..0] == [];
      assert Flatten([s]) == [] + s;
      assert [] + s == s;
    } else {
      assert Kept(p) == [];
      assert Flatten([]) == [];
    }
  }

  /** The full stops between the pieces carry no text. */
  lemma VisibleJoin(pieces: seq<string>)
    requires |pieces| > 1
    ensures Visible(Join(pieces, Terminator))
         == Visible(Join(pieces[..|pieces| - 1], Terminator)) + Visible(pieces[|pieces| - 1])
  {
    var init := Join(pieces[..|pieces| - 1], Terminator);
    var last := pieces[|pieces| - 1];
    assert Join(pieces, Terminator) == init + [Terminator] + last;
    assert Visible([Terminator]) == [] by {
      assert [Terminator][..0] == [];
    }
    assert Visible(init + [Terminator]) == Visible(init) by {
      VisibleAppend(init, [Terminator]);
    }
    VisibleAppend(init + [Terminator], last);
  }

  lemma {:induction false} VisibleKeepNonEmpty(pieces: seq<string>)
    requires |pieces| > 0
    ensures Visible(Flatten(KeepNonEmpty(pieces))) == Visible(Join(pieces, Terminator))
  {
    var init := pieces[..|pieces| - 1];
    var last := pieces[|pieces| - 1];
    var front := KeepNonEmpty(init);
    FlattenAppend(front, Kept(last));
    VisibleAppend(Flatten(front), Flatten(Kept(last)));
    VisibleKept(last);
    if |pieces| == 1 {
      assert init == [];
    } else {
      VisibleKeepNonEmpty(init);
      VisibleJoin(pieces);
    }
  }

  /** No character of text in a line is lost, invented or moved by segmenting it. */
  lemma LineVisiblePreserved(line: string)
    ensures Visible(Flatten(LineSentences(line))) == Visible(line)
  {
    var t := Strip(line);
    VisibleStrip(line);
    if t == [] {
      assert Visible(t) == [];
    } else {
      SplitJoinBack(t, Terminator);
      VisibleKeepNonEmpty(Split(t, Terminator));
    }
  }

  /** No character of text in the file is lost, invented or moved by segmentation. */
  lemma {:induction false} SentencesVisiblePreserved(lines: seq<string>)
    ensures Visible(Flatten(Sentences(lines))) == Visible(Flatten(lines))
  {
    if |lines| > 0 {
      var init := lines[..|lines| - 1];
      var last := lines[|lines| - 1];
      LineVisiblePreserved(last);
      FlattenAppend(Sentences(init), LineSentences(last));
      VisibleAppend(Flatten(Sentences(init)), Flatten(LineSentences(last)));
      VisibleAppend(Flatten(init), last);
      SentencesVisiblePreserved(init);
    }
  }

  /** Characters of the example below: three that are not whitespace, and the newline, which is. */
  lemma ExampleChars()
    ensures !IsSpace('犬') && !IsSpace('猫') && !IsSpace('鳥') && !IsSpace(Terminator)
    ensures IsSpace('\n')
  {
  }

  lemma ExampleFirstLineSplit(t: string)
    requires t == "犬。猫。"
    ensures Split(t, Terminator) == ["犬", "猫", ""]
  {
    var dog, cat := t[..1], t[2..3];
    SplitNoSeparator(dog, Terminator);
    assert dog + [Terminator] + cat == t[..3];
    SplitSuffix(dog, Terminator, cat);
    assert t[..3] + [Terminator] + [] == t;
    SplitSuffix(t[..3], Terminator, []);
    assert dog == "犬" && cat == "猫";
    assert [dog] + [cat] + [[]] == ["犬", "猫", ""];
  }

  lemma ExampleFirstLineStrip()
    ensures Strip("犬。猫。\n") == "犬。猫。"
  {
    ExampleChars();
    StripTrailing("犬。猫。", "\n");
    assert "犬。猫。" + "\n" == "犬。猫。\n";
  }

  lemma ExampleFirstLineKept(pieces: seq<string>)
    requires pieces == ["犬", "猫", ""]
    ensures KeepNonEmpty(pieces) == pieces[..2]
  {
    var kept := pieces[..2];
    assert KeepNonEmpty(kept) == kept by {
      ExampleChars();
      KeepNonEmptyKeepsAll(kept);
    }
    assert kept + [pieces[2]] == pieces;
    FlatMapSnoc(Kept, kept, pieces[2]);
  }

  lemma ExampleFirstLine()
    ensures LineSentences("犬。猫。\n") == ["犬", "猫"]
  {
    ExampleFirstLineStrip();
    ExampleFirstLineSplit("犬。猫。");
    ExampleFirstLineKept(["犬", "猫", ""]);
  }

  lemma ExampleBlankLine()
    ensures LineSentences("\n") == []
  {
    ExampleChars();
    StripEmpty("\n");
  }

  lemma ExampleLastLine()
    ensures LineSentences("鳥。") == ["鳥"]
  {
    ExampleChars();
    StripStripped("鳥。");
    ExampleLastLineSplit();
    KeptStripped("鳥");
    FlatMapSnoc(Kept, [], "鳥");
    FlatMapSnoc(Kept, ["鳥"], "");
    assert [] + ["鳥"] == ["鳥"];
    assert ["鳥"] + [""] == ["鳥", ""];
  }

  lemma ExampleLastLineSplit()
    ensures Split("鳥。", Terminator) == ["鳥", ""]
  {
    SplitNoSeparator("鳥", Terminator);
    SplitSuffix("鳥", Terminator, "");
    assert "鳥" + [Terminator] + "" == "鳥。";
  }
}
