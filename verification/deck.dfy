/**
 * Assembling the Anki deck, as `generate_anki_deck`, `get_sentences_by_fragment`
 * and the deck-path check of `main` do it: for every alignment file of the
 * folder, the document of its part is read back into a dict from fragment id
 * to sentence, and every item of that dict becomes one note, numbered on from
 * the previous part, whose sound is the clip cut for that fragment.
 *
 * The `genanki` model, deck and package are reduced to what the loop gives
 * them: the notes' fields and `due` ordinals, and the media file list.
 */
module Deck {
  import opened PyStr
  import opened Wrappers
  import opened Naming
  import opened Tagging
  import opened Cropping

  /** The id the deck is created with (lines 92-95). */
  const DeckId := 2059400110

  /** The exceptions that end deck assembly. */
  datatype DeckError =
    | BadDeckPath(path: string)              // ValueError at line 40
    | MissingDocument(name: string)          // the part's document cannot be parsed: it was never written
    | MissingPositionalArgument(name: string) // TypeError at line 108

  /**
   * The deck path `main` settles on (lines 36-40): the book name with `.apkg`
   * when none is given, the given one when it has that extension, an error otherwise.
   */
  function ResolveDeckPath(bookName: string, deckPath: Option<string>): (r: Result<string, DeckError>)
    ensures r.Ok? ==> EndsWith(r.value, ".apkg")
    ensures r.Err? <==> deckPath.Some? && !EndsWith(deckPath.value, ".apkg")
    ensures r.Err? ==> r.error == BadDeckPath(deckPath.value)
    ensures r.Ok? && deckPath.Some? ==> r.value == deckPath.value
    ensures deckPath.None? ==> r.value[..|r.value| - 5] == bookName
  {
    match deckPath
    case None =>
      var path := bookName + ".apkg";
      assert path[|path| - 5..] == ".apkg";
      assert path[..|path| - 5] == bookName;
      Ok(path)
    case Some(path) =>
      if !EndsWith(path, ".apkg") then Err(BadDeckPath(path)) else Ok(path)
  }

  /** A Python dict from strings to strings: its items in insertion order. */
  type Dict = seq<(string, string)>

  function Keys(d: Dict): (keys: seq<string>)
    ensures |keys| == |d| && forall i :: 0 <= i < |d| ==> keys[i] == d[i].0
  {
    seq(|d|, i requires 0 <= i < |d| => d[i].0)
  }

  /** No key occurs twice, as in every dict. */
  predicate DistinctKeys(d: Dict) {
    forall i, j :: 0 <= i < j < |d| ==> d[i].0 != d[j].0
  }

  /** The position of the first occurrence of `k`. */
  function IndexOf(keys: seq<string>, k: string): (r: Option<nat>)
    ensures r.Some? ==> r.value < |keys| && keys[r.value] == k && forall i :: 0 <= i < r.value ==> keys[i] != k
    ensures r.None? ==> forall i :: 0 <= i < |keys| ==> keys[i] != k
  {
    if |keys| == 0 then None
    else match IndexOf(keys[..|keys| - 1], k)
      case Some(i) => Some(i)
      case None => if keys[|keys| - 1] == k then Some(|keys| - 1) else None
  }

  /** A position where `k` occurs first is what `IndexOf` finds. */
  lemma {:induction false} IndexOfFirst(keys: seq<string>, k: string, i: nat)
    requires i < |keys| && keys[i] == k && forall j :: 0 <= j < i ==> keys[j] != k
    ensures IndexOf(keys, k) == Some(i)
  {
    var init := keys[..|keys| - 1];
    if i < |init| {
      assert forall j :: 0 <= j < i ==> init[j] == keys[j];
      IndexOfFirst(init, k, i);
    } else {
      assert forall j :: 0 <= j < |init| ==> init[j] != k by {
        assert forall j :: 0 <= j < |init| ==> init[j] == keys[j];
      }
    }
  }

  /** `d[k]`, or `None` where the dict raises KeyError. */
  function Get(d: Dict, k: string): Option<string>
  {
    match IndexOf(Keys(d), k)
    case Some(i) => Some(d[i].1)
    case None => None
  }

  /**
   * `d[k] = v`: an existing key keeps its position and takes the new value, a
   * new key goes last; every other key keeps its value.
   */
  function Put(d: Dict, k: string, v: string): (r: Dict)
    ensures Get(r, k) == Some(v)
    ensures forall k' :: k' != k ==> Get(r, k') == Get(d, k')
    ensures DistinctKeys(d) ==> DistinctKeys(r)
  {
    match IndexOf(Keys(d), k)
    case Some(i) =>
      var r := d[i := (k, v)];
      assert Keys(r) == Keys(d);
      r
    case None =>
      var r := d + [(k, v)];
      PutNew(d, k, v);
      r
  }

  /** The keys after `d[k] = v`: the same keys in the same order, with `k` appended when it is new. */
  lemma PutKeys(d: Dict, k: string, v: string)
    ensures Keys(Put(d, k, v)) == if Get(d, k).Some? then Keys(d) else Keys(d) + [k]
  {
    var r := Put(d, k, v);
    if Get(d, k).Some? {
      assert Keys(r) == Keys(d);
    } else {
      assert Keys(r) == Keys(d) + [k];
    }
  }

  lemma PutNew(d: Dict, k: string, v: string)
    requires IndexOf(Keys(d), k).None?
    ensures Get(d + [(k, v)], k) == Some(v)
    ensures forall k' :: k' != k ==> Get(d + [(k, v)], k') == Get(d, k')
    ensures DistinctKeys(d) ==> DistinctKeys(d + [(k, v)])
  {
    var r := d + [(k, v)];
    assert Keys(r)[..|d|] == Keys(d);
    IndexOfFirst(Keys(r), k, |d|);
    forall k' | k' != k
      ensures Get(r, k') == Get(d, k')
    {
      match IndexOf(Keys(d), k') {
        case Some(i) =>
          IndexOfFirst(Keys(r), k', i);
        case None =>
      }
    }
  }

  /** The dict `get_sentences_by_fragment` builds from the `<p>` elements of a document, in order. */
  function SentencesByFragment(doc: seq<Element>): Dict
  {
    if |doc| == 0 then []
    else
      var last := doc[|doc| - 1];
      Put(SentencesByFragment(doc[..|doc| - 1]), last.id, last.text)
  }

  /** The dict is a dict: no key twice, and at most one item per element. */
  lemma {:induction false} SentencesByFragmentKeys(doc: seq<Element>)
    ensures DistinctKeys(SentencesByFragment(doc))
    ensures |SentencesByFragment(doc)| <= |doc|
  {
    if |doc| > 0 {
      var init := doc[..|doc| - 1];
      var last := doc[|doc| - 1];
      SentencesByFragmentKeys(init);
      PutKeys(SentencesByFragment(init), last.id, last.text);
    }
  }

  /** The name of the document a part is read from. */
  function DocumentName(part: string): string
  {
    part + ".xhtml"
  }

  /**
   * `get_sentences_by_fragment` (lines 127-139) over the documents the
   * conversion wrote, by name: a part without a document raises.
   */
  method GetSentencesByFragment(docs: map<string, seq<Element>>, part: string) returns (r: Result<Dict, DeckError>)
    ensures r.Err? <==> DocumentName(part) !in docs
    ensures r.Err? ==> r.error == MissingDocument(DocumentName(part))
    ensures r.Ok? ==> r.value == SentencesByFragment(docs[DocumentName(part)])
  {
    var xhtmlName := part + ".xhtml";
    if xhtmlName !in docs {
      return Err(MissingDocument(xhtmlName));
    }
    var ps := docs[xhtmlName];
    var sentencesByFragment: Dict := [];
    var k := 0;
    while k < |ps|
      invariant 0 <= k <= |ps|
      invariant sentencesByFragment == SentencesByFragment(ps[..k])
    {
      var fragment := ps[k].id;
      var sentence := ps[k].text;
      SentencesByFragmentSnoc(ps, k);
      sentencesByFragment := Put(sentencesByFragment, fragment, sentence);
      k := k + 1;
    }
    assert ps[..k] == ps;
    r := Ok(sentencesByFragment);
  }

  lemma SentencesByFragmentSnoc(doc: seq<Element>, k: nat)
    requires k < |doc|
    ensures SentencesByFragment(doc[..k + 1]) == Put(SentencesByFragment(doc[..k]), doc[k].id, doc[k].text)
  {
    assert doc[..k + 1][..k] == doc[..k];
  }

  /** A fragment id keeps the text of its last `<p>` element. */
  lemma {:induction false} SentencesByFragmentLastWins(doc: seq<Element>, i: nat)
    requires i < |doc|
    requires forall j :: i < j < |doc| ==> doc[j].id != doc[i].id
    ensures Get(SentencesByFragment(doc), doc[i].id) == Some(doc[i].text)
  {
    var n := |doc| - 1;
    var init := doc[..n];
    var d := SentencesByFragment(init);
    assert SentencesByFragment(doc) == Put(d, doc[n].id, doc[n].text);
    GetPut(d, doc[n].id, doc[n].text, doc[i].id);
    if i < n {
      assert doc[n].id != doc[i].id && Get(d, doc[i].id) == Some(doc[i].text) by {
        assert forall j :: i < j < |init| ==> init[j] == doc[j];
        SentencesByFragmentLastWins(init, i);
      }
    }
  }

  /** A lookup after `d[k] = v` finds `v` under `k` and the old value under any other key. */
  lemma GetPut(d: Dict, k: string, v: string, k2: string)
    ensures Get(Put(d, k, v), k2) == if k2 == k then Some(v) else Get(d, k2)
  {
  }

  /** An id no element carries is not a key. */
  lemma {:induction false} SentencesByFragmentAbsent(doc: seq<Element>, k: string)
    requires forall j :: 0 <= j < |doc| ==> doc[j].id != k
    ensures Get(SentencesByFragment(doc), k) == None
  {
    if |doc| > 0 {
      var init := doc[..|doc| - 1];
      assert forall j :: 0 <= j < |init| ==> init[j] == doc[j];
      SentencesByFragmentAbsent(init, k);
    }
  }

  /** The elements as `(id, text)` items. */
  function Pairs(doc: seq<Element>): (d: Dict)
    ensures |d| == |doc| && forall i :: 0 <= i < |doc| ==> d[i] == (doc[i].id, doc[i].text)
  {
    seq(|doc|, i requires 0 <= i < |doc| => (doc[i].id, doc[i].text))
  }

  /** With pairwise distinct ids the dict holds every element, in document order. */
  lemma {:induction false} SentencesByFragmentDistinct(doc: seq<Element>)
    requires forall i, j :: 0 <= i < j < |doc| ==> doc[i].id != doc[j].id
    ensures SentencesByFragment(doc) == Pairs(doc)
  {
    if |doc| > 0 {
      var init := doc[..|doc| - 1];
      var last := doc[|doc| - 1];
      SentencesByFragmentDistinct(init);
      var d := Pairs(init);
      assert forall i :: 0 <= i < |d| ==> Keys(d)[i] != last.id;
      assert IndexOf(Keys(d), last.id).None?;
      assert d + [(last.id, last.text)] == Pairs(doc);
    }
  }

  /** So a document the conversion wrote is read back as its sentences under ids f00000, f00001, … */
  lemma TaggedDocumentReadBack(sentences: seq<string>)
    ensures SentencesByFragment(Tag(sentences)) == seq(|sentences|, i requires 0 <= i < |sentences| => (FragmentId(i), sentences[i]))
  {
    var doc := Tag(sentences);
    forall i, j | 0 <= i < j < |doc|
      ensures doc[i].id != doc[j].id
    {
      FragmentIdInjective(i, j);
    }
    SentencesByFragmentDistinct(doc);
  }

  /** What one note is made from: the part, the fragment id and the sentence. */
  datatype Card = Card(part: string, fragment: string, sentence: string)

  /** The cards of one part, in the order of its dict. */
  function PartCards(part: string, d: Dict): (cards: seq<Card>)
    ensures |cards| == |d| && forall i :: 0 <= i < |d| ==> cards[i] == Card(part, d[i].0, d[i].1)
  {
    seq(|d|, i requires 0 <= i < |d| => Card(part, d[i].0, d[i].1))
  }

  /**
   * The cards of the alignment files, file after file, or the exception of the
   * first file whose part has no document.
   */
  function Cards(docs: map<string, seq<Element>>, jsonFiles: seq<Entry<Alignment>>): Result<seq<Card>, DeckError>
  {
    if |jsonFiles| == 0 then Ok([])
    else match Cards(docs, jsonFiles[..|jsonFiles| - 1])
      case Err(e) => Err(e)
      case Ok(cards) =>
        var part := JsonPart(jsonFiles[|jsonFiles| - 1].name);
        if DocumentName(part) !in docs then Err(MissingDocument(DocumentName(part)))
        else Ok(cards + PartCards(part, SentencesByFragment(docs[DocumentName(part)])))
  }

  /** One `genanki.Note` of the fixed two-field model. */
  datatype Note = Note(fields: seq<string>, due: nat)

  /** What `package.write_to_file` is given: the deck with its notes, and the media files. */
  datatype Package = Package(deckId: int, deckName: string, notes: seq<Note>, mediaFiles: seq<string>, path: string)

  /** The clip of a card: the name `cut_audio_fragments` gives it. */
  function AudioName(bookName: string, card: Card): string
  {
    GenerateAudioCutFilename(bookName, card.part, card.fragment)
  }

  /** Where the clips are: `join(data_folder, "audio_fragments")`. */
  function ClipFolder(dataFolder: string): string
  {
    PathJoin(dataFolder, "audio_fragments")
  }

  function NoteOf(bookName: string, card: Card, due: nat): Note
  {
    Note([card.sentence, "[sound:" + AudioName(bookName, card) + "]"], due)
  }

  function Notes(bookName: string, cards: seq<Card>): (notes: seq<Note>)
    ensures |notes| == |cards| && forall k :: 0 <= k < |cards| ==> notes[k] == NoteOf(bookName, cards[k], k)
  {
    seq(|cards|, k requires 0 <= k < |cards| => NoteOf(bookName, cards[k], k))
  }

  function MediaFiles(dataFolder: string, bookName: string, cards: seq<Card>): (media: seq<string>)
    ensures |media| == |cards|
    ensures forall k :: 0 <= k < |cards| ==> media[k] == PathJoin(ClipFolder(dataFolder), AudioName(bookName, cards[k]))
  {
    seq(|cards|, k requires 0 <= k < |cards| => PathJoin(ClipFolder(dataFolder), AudioName(bookName, cards[k])))
  }

  function DeckName(bookName: string): string
  {
    "Audiobook: " + bookName
  }

  /** The package of a run that found every document. */
  function PackageOf(dataFolder: string, bookName: string, deckPath: string, cards: seq<Card>): Package
  {
    Package(DeckId, DeckName(bookName), Notes(bookName, cards), MediaFiles(dataFolder, bookName, cards), deckPath)
  }

  /** The deck `generate_anki_deck` writes once the call at line 108 passes the book name. */
  function AnkiDeck(dataFolder: string, bookName: string, deckPath: string, docs: map<string, seq<Element>>,
                    listing: seq<Entry<Alignment>>): Result<Package, DeckError>
  {
    match Cards(docs, ListFilesWithExtension(listing, "json"))
    case Err(e) => Err(e)
    case Ok(cards) => Ok(PackageOf(dataFolder, bookName, deckPath, cards))
  }

  lemma CardsSnoc(docs: map<string, seq<Element>>, jsonFiles: seq<Entry<Alignment>>, i: nat)
    requires i < |jsonFiles|
    ensures var part := JsonPart(jsonFiles[i].name);
      Cards(docs, jsonFiles[..i + 1]) ==
        match Cards(docs, jsonFiles[..i])
        case Err(e) => Err(e)
        case Ok(cards) =>
          if DocumentName(part) !in docs then Err(MissingDocument(DocumentName(part)))
          else Ok(cards + PartCards(part, SentencesByFragment(docs[DocumentName(part)])))
  {
    assert jsonFiles[..i + 1][..i] == jsonFiles[..i];
  }

  /**
   * The corrected note loop of `generate_anki_deck` (lines 100-124): `idx`
   * counts the notes, every note's sound is the clip of its fragment, and one
   * media path is appended per note.
   */
  method GenerateAnkiDeck(dataFolder: string, bookName: string, deckPath: string,
                          docs: map<string, seq<Element>>, listing: seq<Entry<Alignment>>)
    returns (r: Result<Package, DeckError>)
    ensures r == AnkiDeck(dataFolder, bookName, deckPath, docs, listing)
  {
    var jsonFiles := ListFilesWithExtension(listing, "json");
    ghost var cards: seq<Card> := [];
    var notes: seq<Note> := [];
    var mediaFiles: seq<string> := [];
    var idx := 0;
    var i := 0;
    while i < |jsonFiles|
      invariant 0 <= i <= |jsonFiles|
      invariant Cards(docs, jsonFiles[..i]) == Ok(cards)
      invariant idx == |cards|
      invariant notes == Notes(bookName, cards) && mediaFiles == MediaFiles(dataFolder, bookName, cards)
    {
      var part := RStripChars(jsonFiles[i].name, JsonChars);
      var sentencesByFragment := GetSentencesByFragment(docs, part);
      CardsSnoc(docs, jsonFiles, i);
      if sentencesByFragment.Err? {
        CardsFail(docs, jsonFiles, i + 1);
        return Err(sentencesByFragment.error);
      }
      var items := sentencesByFragment.value;
      ghost var partCards := PartCards(part, items);
      notes, mediaFiles, idx := AddPartNotes(dataFolder, bookName, part, items, cards, notes, mediaFiles, idx);
      cards := cards + partCards;
      i := i + 1;
    }
    assert jsonFiles[..i] == jsonFiles;
    r := Ok(Package(DeckId, DeckName(bookName), notes, mediaFiles, deckPath));
  }

  /**
   * The inner loop of `generate_anki_deck` (lines 107-122) over the items of
   * one part, appending to the notes and media paths of the cards before it.
   */
  method AddPartNotes(dataFolder: string, bookName: string, part: string, items: Dict, ghost cards: seq<Card>,
                      notes0: seq<Note>, mediaFiles0: seq<string>, idx0: nat)
    returns (notes: seq<Note>, mediaFiles: seq<string>, idx: nat)
    requires idx0 == |cards|
    requires notes0 == Notes(bookName, cards) && mediaFiles0 == MediaFiles(dataFolder, bookName, cards)
    ensures idx == |cards| + |items|
    ensures notes == Notes(bookName, cards + PartCards(part, items))
    ensures mediaFiles == MediaFiles(dataFolder, bookName, cards + PartCards(part, items))
  {
    ghost var partCards := PartCards(part, items);
    notes, mediaFiles, idx := notes0, mediaFiles0, idx0;
    var j := 0;
    assert partCards[..0] == [] && cards + [] == cards;
    while j < |items|
      invariant 0 <= j <= |items|
      invariant idx == |cards| + j
      invariant notes == Notes(bookName, cards + partCards[..j])
      invariant mediaFiles == MediaFiles(dataFolder, bookName, cards + partCards[..j])
    {
      var (fragment, sentence) := items[j];
      var audioFilename := GenerateAudioCutFilename(bookName, part, fragment);
      var audioFilepath := PathJoin(PathJoin(dataFolder, "audio_fragments"), audioFilename);
      var note := Note([sentence, "[sound:" + audioFilename + "]"], idx);
      DeckSnoc(dataFolder, bookName, cards, partCards, j);
      assert partCards[j] == Card(part, fragment, sentence);
      assert note == NoteOf(bookName, partCards[j], |cards + partCards[..j]|);
      notes := notes + [note];
      mediaFiles := mediaFiles + [audioFilepath];
      idx := idx + 1;
      j := j + 1;
    }
    assert partCards[..j] == partCards;
  }

  /** One more card adds its note, numbered by its position, and its clip's path. */
  lemma DeckSnoc(dataFolder: string, bookName: string, cards: seq<Card>, partCards: seq<Card>, j: nat)
    requires j < |partCards|
    ensures var done := cards + partCards[..j];
      && Notes(bookName, cards + partCards[..j + 1]) == Notes(bookName, done) + [NoteOf(bookName, partCards[j], |done|)]
      && MediaFiles(dataFolder, bookName, cards + partCards[..j + 1])
         == MediaFiles(dataFolder, bookName, done) + [PathJoin(ClipFolder(dataFolder), AudioName(bookName, partCards[j]))]
  {
    assert cards + partCards[..j + 1] == (cards + partCards[..j]) + [partCards[j]];
  }

  /** Once a file lacks its document, the later files change nothing. */
  lemma {:induction false} CardsFail(docs: map<string, seq<Element>>, jsonFiles: seq<Entry<Alignment>>, i: nat)
    requires i <= |jsonFiles| && Cards(docs, jsonFiles[..i]).Err?
    ensures Cards(docs, jsonFiles) == Cards(docs, jsonFiles[..i])
    decreases |jsonFiles| - i
  {
    if i < |jsonFiles| {
      CardsSnoc(docs, jsonFiles, i);
      CardsFail(docs, jsonFiles, i + 1);
    } else {
      assert jsonFiles[..i] == jsonFiles;
    }
  }

  /** The part of an alignment file has its document. */
  predicate HasDocument(docs: map<string, seq<Element>>, jsonFile: Entry<Alignment>) {
    DocumentName(JsonPart(jsonFile.name)) in docs
  }

  /** The deck is written exactly when every alignment file's part has its document. */
  lemma {:induction false} CardsSucceed(docs: map<string, seq<Element>>, jsonFiles: seq<Entry<Alignment>>)
    ensures Cards(docs, jsonFiles).Ok? <==> forall i :: 0 <= i < |jsonFiles| ==> HasDocument(docs, jsonFiles[i])
  {
    if |jsonFiles| > 0 {
      var init := jsonFiles[..|jsonFiles| - 1];
      var last := jsonFiles[|jsonFiles| - 1];
      CardsSucceed(docs, init);
      CardsOkStep(docs, jsonFiles);
      AllHaveDocuments(docs, jsonFiles);
    }
  }

  /** Every file has its document exactly when every file but the last has, and the last has too. */
  lemma AllHaveDocuments(docs: map<string, seq<Element>>, jsonFiles: seq<Entry<Alignment>>)
    requires |jsonFiles| > 0
    ensures var init := jsonFiles[..|jsonFiles| - 1];
      (forall i :: 0 <= i < |jsonFiles| ==> HasDocument(docs, jsonFiles[i]))
        <==> (forall i :: 0 <= i < |init| ==> HasDocument(docs, init[i])) && HasDocument(docs, jsonFiles[|jsonFiles| - 1])
  {
    var init := jsonFiles[..|jsonFiles| - 1];
    assert forall i :: 0 <= i < |init| ==> init[i] == jsonFiles[i];
  }

  /** One more file keeps the run going exactly when its part has its document. */
  lemma CardsOkStep(docs: map<string, seq<Element>>, jsonFiles: seq<Entry<Alignment>>)
    requires |jsonFiles| > 0
    ensures Cards(docs, jsonFiles).Ok?
        <==> Cards(docs, jsonFiles[..|jsonFiles| - 1]).Ok? && HasDocument(docs, jsonFiles[|jsonFiles| - 1])
  {
  }

  /**
   * The notes are numbered 0, 1, 2, … across all parts; each plays the clip
   * named after its part and fragment, and the media list holds that clip's
   * path at the same position.
   */
  lemma DeckNotes(dataFolder: string, bookName: string, deckPath: string, docs: map<string, seq<Element>>,
                  listing: seq<Entry<Alignment>>, k: nat)
    requires AnkiDeck(dataFolder, bookName, deckPath, docs, listing).Ok?
    requires k < |AnkiDeck(dataFolder, bookName, deckPath, docs, listing).value.notes|
    ensures var p := AnkiDeck(dataFolder, bookName, deckPath, docs, listing).value;
      var cards := Cards(docs, ListFilesWithExtension(listing, "json")).value;
      && |p.mediaFiles| == |p.notes| == |cards|
      && p.notes[k].due == k
      && p.notes[k].fields == [cards[k].sentence, "[sound:" + AudioName(bookName, cards[k]) + "]"]
      && p.mediaFiles[k] == PathJoin(ClipFolder(dataFolder), AudioName(bookName, cards[k]))
  {
  }
  /**
   * The deck as lines 102-122 are written: the call at line 108 passes two
   * arguments to the three-parameter `generate_audio_cut_filename`, so the
   * first fragment of the first part that has one raises TypeError. The run
   * ends at the first file whose document is missing or whose dict is not empty.
   */
  function FirstErrorAsWritten(docs: map<string, seq<Element>>, jsonFiles: seq<Entry<Alignment>>): Option<DeckError>
  {
    if |jsonFiles| == 0 then None
    else match FirstErrorAsWritten(docs, jsonFiles[..|jsonFiles| - 1])
      case Some(e) => Some(e)
      case None =>
        var part := JsonPart(jsonFiles[|jsonFiles| - 1].name);
        if DocumentName(part) !in docs then Some(MissingDocument(DocumentName(part)))
        else if |SentencesByFragment(docs[DocumentName(part)])| > 0 then Some(MissingPositionalArgument("fragment"))
        else None
  }

  /** The outcome of `generate_anki_deck` as written. */
  function AnkiDeckAsWritten(dataFolder: string, bookName: string, deckPath: string, docs: map<string, seq<Element>>,
                             listing: seq<Entry<Alignment>>): Result<Package, DeckError>
  {
    match FirstErrorAsWritten(docs, ListFilesWithExtension(listing, "json"))
    case Some(e) => Err(e)
    case None => Ok(PackageOf(dataFolder, bookName, deckPath, []))
  }

  lemma FirstErrorSnoc(docs: map<string, seq<Element>>, jsonFiles: seq<Entry<Alignment>>, i: nat)
    requires i < |jsonFiles|
    ensures var part := JsonPart(jsonFiles[i].name);
      FirstErrorAsWritten(docs, jsonFiles[..i + 1]) ==
        match FirstErrorAsWritten(docs, jsonFiles[..i])
        case Some(e) => Some(e)
        case None =>
          if DocumentName(part) !in docs then Some(MissingDocument(DocumentName(part)))
          else if |SentencesByFragment(docs[DocumentName(part)])| > 0 then Some(MissingPositionalArgument("fragment"))
          else None
  {
    assert jsonFiles[..i + 1][..i] == jsonFiles[..i];
  }

  lemma {:induction false} FirstErrorStops(docs: map<string, seq<Element>>, jsonFiles: seq<Entry<Alignment>>, i: nat)
    requires i <= |jsonFiles| && FirstErrorAsWritten(docs, jsonFiles[..i]).Some?
    ensures FirstErrorAsWritten(docs, jsonFiles) == FirstErrorAsWritten(docs, jsonFiles[..i])
    decreases |jsonFiles| - i
  {
    if i < |jsonFiles| {
      FirstErrorSnoc(docs, jsonFiles, i);
      FirstErrorStops(docs, jsonFiles, i + 1);
    } else {
      assert jsonFiles[..i] == jsonFiles;
    }
  }

  /** The loop of lines 102-122 as written, up to the call that raises. */
  method GenerateAnkiDeckAsWritten(dataFolder: string, bookName: string, deckPath: string,
                                   docs: map<string, seq<Element>>, listing: seq<Entry<Alignment>>)
    returns (r: Result<Package, DeckError>)
    ensures r == AnkiDeckAsWritten(dataFolder, bookName, deckPath, docs, listing)
  {
    var jsonFiles := ListFilesWithExtension(listing, "json");
    var i := 0;
    while i < |jsonFiles|
      invariant 0 <= i <= |jsonFiles|
      invariant FirstErrorAsWritten(docs, jsonFiles[..i]).None?
    {
      var part := RStripChars(jsonFiles[i].name, JsonChars);
      var sentencesByFragment := GetSentencesByFragment(docs, part);
      FirstErrorSnoc(docs, jsonFiles, i);
      if sentencesByFragment.Err? {
        FirstErrorStops(docs, jsonFiles, i + 1);
        return Err(sentencesByFragment.error);
      }
      if |sentencesByFragment.value| > 0 {
        // the first item reaches line 108, where the call lacks `fragment`
        FirstErrorStops(docs, jsonFiles, i + 1);
        return Err(MissingPositionalArgument("fragment"));
      }
      i := i + 1;
    }
    assert jsonFiles[..i] == jsonFiles;
    r := Ok(Package(DeckId, DeckName(bookName), [], [], deckPath));
  }

  /** Where every document is there, the source as written fails exactly when some note would be made. */
  lemma {:induction false} AsWrittenVsCards(docs: map<string, seq<Element>>, jsonFiles: seq<Entry<Alignment>>)
    requires Cards(docs, jsonFiles).Ok?
    ensures FirstErrorAsWritten(docs, jsonFiles)
         == if |Cards(docs, jsonFiles).value| == 0 then None else Some(MissingPositionalArgument("fragment"))
  {
    if |jsonFiles| > 0 {
      var init := jsonFiles[..|jsonFiles| - 1];
      AsWrittenVsCards(docs, init);
    }
  }

  /**
   * So the deck as written never holds a note: whenever the corrected loop
   * makes one, the source raises TypeError, and it agrees with the corrected
   * loop only on decks without notes.
   */
  lemma AsWrittenHasNoNotes(dataFolder: string, bookName: string, deckPath: string,
                            docs: map<string, seq<Element>>, listing: seq<Entry<Alignment>>)
    ensures AnkiDeckAsWritten(dataFolder, bookName, deckPath, docs, listing).Ok? ==>
      AnkiDeckAsWritten(dataFolder, bookName, deckPath, docs, listing).value.notes == []
    ensures var fixed := AnkiDeck(dataFolder, bookName, deckPath, docs, listing);
      fixed.Ok? ==>
        AnkiDeckAsWritten(dataFolder, bookName, deckPath, docs, listing)
          == if |fixed.value.notes| == 0 then fixed else Err(MissingPositionalArgument("fragment"))
  {
    var jsonFiles := ListFilesWithExtension(listing, "json");
    if Cards(docs, jsonFiles).Ok? {
      AsWrittenVsCards(docs, jsonFiles);
      if |Cards(docs, jsonFiles).value| == 0 {
        assert Notes(bookName, []) == [] && MediaFiles(dataFolder, bookName, []) == [];
      }
    }
  }
  /** The alignment file of the example below, and the listing that holds only it. */
  lemma ExampleListing(listing: seq<Entry<Alignment>>)
    requires listing == [Entry("a.json", true, [])]
    ensures ListFilesWithExtension(listing, "json") == listing
    ensures JsonPart(listing[0].name) == "a"
  {
    ExamplePart();
    ExampleExtension();
    var e := listing[0];
    assert listing[1..] == [];
    assert ListFilesWithExtension(listing, "json") == [e] + ListFilesWithExtension(listing[1..], "json");
  }

  lemma ExampleExtension()
    ensures HasExtension("a.json", "json")
  {
    var name := "a.json";
    assert Lower(name) == name by {
      forall i | 0 <= i < |name|
        ensures Lower(name)[i] == name[i]
      {
      }
    }
    assert name[1..] == ".json";
  }

  lemma ExamplePart()
    ensures JsonPart("a.json") == "a"
  {
    RStripCharsTail("a", ".json", JsonChars);
    assert "a" + ".json" == "a.json";
  }

  /** Its document holds one sentence, so the corrected loop makes one card. */
  lemma ExampleCards(listing: seq<Entry<Alignment>>, docs: map<string, seq<Element>>)
    requires listing == [Entry("a.json", true, [])]
    requires docs == map["a.xhtml" := [Element("f00000", "x")]]
    ensures Cards(docs, listing).Ok? && |Cards(docs, listing).value| == 1
  {
    ExampleListing(listing);
    var doc := [Element("f00000", "x")];
    assert DocumentName("a") == "a.xhtml";
    assert doc[..0] == [];
    assert |SentencesByFragment(doc)| == 1;
    assert listing[..0] == [];
    assert docs[DocumentName(JsonPart(listing[0].name))] == doc;
    assert Cards(docs, listing) == Ok([] + PartCards("a", SentencesByFragment(doc)));
  }

  /**
   * One alignment file "a.json" whose document holds one sentence: the
   * corrected loop makes one note, the source as written raises TypeError.
   */
  lemma ExampleTypeError(listing: seq<Entry<Alignment>>, docs: map<string, seq<Element>>)
    requires listing == [Entry("a.json", true, [])]
    requires docs == map["a.xhtml" := [Element("f00000", "x")]]
    ensures AnkiDeck("data", "book", "book.apkg", docs, listing).Ok?
    ensures |AnkiDeck("data", "book", "book.apkg", docs, listing).value.notes| == 1
    ensures AnkiDeckAsWritten("data", "book", "book.apkg", docs, listing) == Err(MissingPositionalArgument("fragment"))
  {
    ExampleListing(listing);
    ExampleCards(listing, docs);
    AsWrittenHasNoNotes("data", "book", "book.apkg", docs, listing);
  }
}
