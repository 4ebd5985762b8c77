/**
 * Fragment tagging, as `convert_text_file_to_xhtml` and
 * `convert_text_files_to_xhtml` do it: the i-th sentence of a text file becomes
 * the element `<p id="f" + zfill(str(i), 5)>sentence</p>`, and a file without
 * sentences produces no document. The markup tree is the sequence of its
 * `(id, text)` elements; writing it to disk is left out.
 */
module Tagging {
  import opened PyStr
  import opened Wrappers
  import opened Segmentation
  import opened Naming

  /** One `<p>` element of the document. */
  datatype Element = Element(id: string, text: string)

  /** `f"f{str(idx).zfill(5)}"`. */
  function FragmentId(i: nat): (id: string)
    ensures |id| >= 6 && id[0] == 'f'
  {
    "f" + ZFill(NatToDecimal(i), 5)
  }

  /** Reads the ordinal back out of a fragment id. */
  function ParseFragmentId(id: string): Option<nat>
  {
    if |id| >= 2 && id[0] == 'f' && AllDigits(id[1..]) then Some(DigitsValue(id[1..])) else None
  }

  /** Fragment ids are read back to the ordinal they were made from. */
  lemma FragmentIdRoundTrip(i: nat)
    ensures ParseFragmentId(FragmentId(i)) == Some(i)
  {
    var digits := NatToDecimal(i);
    var padded := ZFill(digits, 5);
    ZFillShape(digits, 5);
    LeadingZerosValue(|padded| - |digits|, digits);
    assert FragmentId(i)[1..] == padded;
  }

  /** So distinct ordinals get distinct ids. */
  lemma FragmentIdInjective(i: nat, j: nat)
    requires i != j
    ensures FragmentId(i) != FragmentId(j)
  {
    FragmentIdRoundTrip(i);
    FragmentIdRoundTrip(j);
  }

  function Pow10(k: nat): (p: nat)
    ensures p >= 1
  {
    if k == 0 then 1 else 10 * Pow10(k - 1)
  }

  /** A numeral has at most k digits exactly when the number is below 10^k. */
  lemma {:induction false} DecimalLength(n: nat, k: nat)
    requires k >= 1
    ensures |NatToDecimal(n)| <= k <==> n < Pow10(k)
  {
    if n >= 10 {
      if k == 1 {
        assert |NatToDecimal(n)| == |NatToDecimal(n / 10)| + 1;
      } else {
        DecimalLength(n / 10, k - 1);
        assert n / 10 < Pow10(k - 1) <==> n < 10 * Pow10(k - 1);
      }
    } else {
      assert Pow10(k) >= 10 by {
        assert Pow10(k) == 10 * Pow10(k - 1);
      }
    }
  }

  /**
   * An id is exactly six characters below 100000 and longer from there on,
   * since `zfill` never truncates.
   */
  lemma FragmentIdLength(i: nat)
    ensures |FragmentId(i)| >= 6
    ensures |FragmentId(i)| == 6 <==> i < 100000
  {
    ZFillShape(NatToDecimal(i), 5);
    DecimalLength(i, 5);
    assert Pow10(5) == 100000;
  }

  /** An id is "f" followed by digits only. */
  lemma FragmentIdDigits(i: nat)
    ensures |FragmentId(i)| >= 2 && FragmentId(i)[0] == 'f' && AllDigits(FragmentId(i)[1..])
  {
    var digits := NatToDecimal(i);
    ZFillShape(digits, 5);
    LeadingZerosValue(|ZFill(digits, 5)| - |digits|, digits);
    assert FragmentId(i)[1..] == ZFill(digits, 5);
  }

  /** Ids hold no underscore, so they survive in clip names. */
  lemma FragmentIdNoUnderscore(i: nat)
    ensures '_' !in FragmentId(i)
  {
    FragmentIdDigits(i);
    var id := FragmentId(i);
    assert forall k :: 0 <= k < |id| ==> id[k] != '_' by {
      forall k | 0 <= k < |id|
        ensures id[k] != '_'
      {
        if k > 0 {
          assert id[k] == id[1..][k - 1];
        }
      }
    }
  }

  /** What a written document holds: its sentences, tagged with consecutive ids from 0. */
  predicate TaggedDocument(doc: seq<Element>, sentences: seq<string>) {
    && |doc| == |sentences|
    && forall i :: 0 <= i < |doc| ==> doc[i] == Element(FragmentId(i), sentences[i])
  }

  lemma TaggedDocumentStep(tree: seq<Element>, sentences: seq<string>, idx: nat)
    requires idx < |sentences| && TaggedDocument(tree, sentences[..idx])
    ensures TaggedDocument(tree + [Element(FragmentId(idx), sentences[idx])], sentences[..idx + 1])
  {
    var next := tree + [Element(FragmentId(idx), sentences[idx])];
    var prefix := sentences[..idx + 1];
    forall i | 0 <= i < |next|
      ensures next[i] == Element(FragmentId(i), prefix[i])
    {
      if i < idx {
        assert next[i] == tree[i] && prefix[i] == sentences[..idx][i];
      }
    }
  }

  /**
   * The document built for one text file (lines 169-185): `None` when the file
   * yields no sentence and nothing is written, otherwise one element per
   * sentence, in order, with pairwise distinct ids.
   */
  method ConvertTextFileToXhtml(lines: seq<string>) returns (doc: Option<seq<Element>>)
    ensures doc.None? <==> Sentences(lines) == []
    ensures doc.Some? ==> TaggedDocument(doc.value, Sentences(lines))
    ensures doc.Some? ==> forall i, j :: 0 <= i < j < |doc.value| ==> doc.value[i].id != doc.value[j].id
  {
    var sentences := ExtractSentences(lines);
    var tree: seq<Element> := [];
    var idx := 0;
    while idx < |sentences|
      invariant 0 <= idx <= |sentences|
      invariant TaggedDocument(tree, sentences[..idx])
    {
      var fragmentId := "f" + ZFill(NatToDecimal(idx), 5);
      TaggedDocumentStep(tree, sentences, idx);
      tree := tree + [Element(fragmentId, sentences[idx])];
      idx := idx + 1;
    }
    if |tree| == 0 {
      return None;
    }
    assert sentences[..idx] == sentences;
    forall i, j | 0 <= i < j < |tree|
      ensures tree[i].id != tree[j].id
    {
      FragmentIdInjective(i, j);
    }
    doc := Some(tree);
  }

  /** The tagged document of a sequence of sentences. */
  function Tag(sentences: seq<string>): (doc: seq<Element>)
    ensures TaggedDocument(doc, sentences)
  {
    seq(|sentences|, i requires 0 <= i < |sentences| => Element(FragmentId(i), sentences[i]))
  }

  /** A tagged document is determined by its sentences. */
  lemma TaggedDocumentUnique(doc: seq<Element>, sentences: seq<string>)
    requires TaggedDocument(doc, sentences)
    ensures doc == Tag(sentences)
  {
  }

  /** What converting one text file amounts to: the name of its document and its sentences. */
  datatype Output = Output(docName: string, sentences: seq<string>)

  function Outputs(txtFiles: seq<Entry<seq<string>>>): (r: seq<Output>)
    ensures |r| == |txtFiles|
    ensures forall k :: 0 <= k < |r| ==> r[k] == Output(XhtmlName(txtFiles[k].name), Sentences(txtFiles[k].content))
  {
    seq(|txtFiles|, k requires 0 <= k < |txtFiles| => Output(XhtmlName(txtFiles[k].name), Sentences(txtFiles[k].content)))
  }

  /**
   * The documents on disk after converting text files in this order, by
   * document name: a file without sentences writes nothing, a later file
   * with the same document name overwrites an earlier one.
   */
  function Documents(outputs: seq<Output>): map<string, seq<Element>>
  {
    if |outputs| == 0 then map[]
    else
      var docs := Documents(outputs[..|outputs| - 1]);
      var last := outputs[|outputs| - 1];
      if last.sentences == [] then docs else docs[last.docName := Tag(last.sentences)]
  }

  lemma DocumentsStep(outputs: seq<Output>, k: nat)
    requires k < |outputs|
    ensures var docs := Documents(outputs[..k]);
      Documents(outputs[..k + 1])
        == if outputs[k].sentences == [] then docs else docs[outputs[k].docName := Tag(outputs[k].sentences)]
  {
    assert outputs[..k + 1][..k] == outputs[..k];
  }

  /**
   * The loop of `convert_text_files_to_xhtml` (lines 142-151) over the `.txt`
   * files of the folder, starting from the emptied output folder.
   */
  method ConvertTextFilesToXhtml(listing: seq<Entry<seq<string>>>) returns (docs: map<string, seq<Element>>)
    ensures docs == Documents(Outputs(ListFilesWithExtension(listing, "txt")))
  {
    var txtFiles := ListFilesWithExtension(listing, "txt");
    ghost var outputs := Outputs(txtFiles);
    docs := map[];
    var k := 0;
    while k < |txtFiles|
      invariant 0 <= k <= |txtFiles|
      invariant docs == Documents(outputs[..k])
    {
      var file := txtFiles[k];
      var xhtmlName := RStripChars(file.name, TxtChars) + "xhtml";
      var doc := ConvertTextFileToXhtml(file.content);
      assert outputs[k] == Output(xhtmlName, Sentences(file.content));
      DocumentsStep(outputs, k);
      if doc.Some? {
        TaggedDocumentUnique(doc.value, Sentences(file.content));
        docs := docs[xhtmlName := doc.value];
      }
      k := k + 1;
    }
    assert outputs[..k] == outputs;
  }

  /**
   * Every document on disk comes from the last output of that name that has
   * sentences, and holds those sentences tagged 0, 1, 2, … in order.
   */
  lemma {:induction false} DocumentSource(outputs: seq<Output>, name: string) returns (k: nat)
    requires name in Documents(outputs)
    ensures k < |outputs| && outputs[k].docName == name && outputs[k].sentences != []
    ensures TaggedDocument(Documents(outputs)[name], outputs[k].sentences)
    ensures forall j :: k < j < |outputs| && outputs[j].docName == name ==> outputs[j].sentences == []
  {
    var init := outputs[..|outputs| - 1];
    var last := outputs[|outputs| - 1];
    if last.sentences != [] && name == last.docName {
      k := |outputs| - 1;
    } else {
      k := DocumentSource(init, name);
      assert forall j :: k < j < |init| ==> init[j] == outputs[j];
    }
  }

  /** And every output with sentences has its document on disk. */
  lemma {:induction false} DocumentWritten(outputs: seq<Output>, k: nat)
    requires k < |outputs| && outputs[k].sentences != []
    ensures outputs[k].docName in Documents(outputs)
  {
    var n := |outputs| - 1;
    var init := outputs[..n];
    DocumentsStep(outputs, n);
    assert outputs[..n + 1] == outputs;
    if k < n {
      assert init[k] == outputs[k];
      DocumentWritten(init, k);
    }
  }

  /**
   * So the documents of a folder are non-empty, tagged in order, and hold
   * well-formed sentences of the text file they are named after.
   */
  lemma DocumentsWellFormed(txtFiles: seq<Entry<seq<string>>>, name: string)
    requires name in Documents(Outputs(txtFiles))
    ensures var doc := Documents(Outputs(txtFiles))[name];
      && |doc| > 0
      && (forall i :: 0 <= i < |doc| ==> doc[i].id == FragmentId(i) && WellFormed(doc[i].text))
      && exists k :: 0 <= k < |txtFiles| && XhtmlName(txtFiles[k].name) == name && doc == Tag(Sentences(txtFiles[k].content))
  {
    var k := DocumentSource(Outputs(txtFiles), name);
    SentencesWellFormed(txtFiles[k].content);
    TaggedDocumentUnique(Documents(Outputs(txtFiles))[name], Sentences(txtFiles[k].content));
  }
}
