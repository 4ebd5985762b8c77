# Audiobook alignment — a Dafny model

The repository turns a Japanese audiobook and its text into an Anki deck. Each card
shows one sentence and plays that sentence's audio. `align_and_create_anki_deck.py`
runs the pipeline in four steps:

1. It splits every `.txt` file of the book into sentences at the full stop `。`.
2. It writes one XHTML document per text file, with one `<p id="f00000">` element per sentence.
3. An external forced aligner produces one JSON file per document. The script then
   parses each fragment's `H:MM:SS.mmm` begin and end times and asks `ffmpeg` to cut
   each fragment into its own mp3 clip.
4. It builds the deck from the documents and the clip names.

`julius.py` is an experiment with a second aligner. It also splits a text at `。`,
frames each phonetic transcript line with the silence markers `silB` and `silE`, and
pairs the segmenter's `silB`/`silE` units with the sentences to get each sentence's
start and end.

This project models both scripts. The files on disk, the external tools and the
folder listings become values passed in and values returned. The model keeps the
branches and exceptions of the code, except those listed under "Left out", and the
properties are proved about that model.

| file | module | models |
|---|---|---|
| `wrappers.dfy` | `Wrappers` | `Option` and `Result` |
| `seqs.dfy` | `Seqs` | concatenation of mapped pieces |
| `pystr.dfy` | `PyStr` | the Python string methods the scripts use: `strip`/`lstrip`/`rstrip`, `rstrip(chars)`, `split`, `join`, `replace`, `lower`, `endswith`, `str(int)`, `zfill`, `int(digits)` |
| `segmentation.dfy` | `Segmentation` | `extract_sentences_from_txt_file` |
| `naming.dfy` | `Naming` | `list_files_with_extension`, the part and document names, `os.path.join`, `generate_audio_cut_filename` |
| `tagging.dfy` | `Tagging` | `convert_text_file_to_xhtml`, `convert_text_files_to_xhtml` |
| `timestamp.dfy` | `Timestamp` | `fragment_time_to_float`, including the backtracking of its regular expression |
| `cropping.dfy` | `Cropping` | `cut_audio_fragments`, `crop_audio` |
| `deck.dfy` | `Deck` | the deck path of `main`, `get_sentences_by_fragment`, `generate_anki_deck` (as written and corrected) |
| `julius.dfy` | `Julius` | `julius.py` lines 15-61 |

How values stand in for the outside world:

- A folder listing is a sequence of entries (name, is-a-file, content), in the order
  `listdir` returns them.
- A text file is its sequence of lines.
- An alignment file is its sequence of `(fragment, record)` items in JSON order, where a
  record maps keys to strings.
- A written document is its sequence of `(id, text)` elements.
- Times are whole milliseconds. `Timestamp.FragmentTimeToSeconds` gives the exact real
  value the formula denotes.
- `ffmpeg` is a function from a crop request to an exit code.
- The segmenter's result is a parameter of `Julius.AlignSample`.

The loops of the source are methods with loop invariants. Each is proved equal to a
specification function, and the lemmas state what that function promises. Clips and
notes are tied together by name: a note's sound is `Deck.AudioName`, which is the name
`Cropping.ClipPath` gives the clip, and the deck's media path joins that name to
`Deck.ClipFolder`, the folder `main` passes to `cut_audio_fragments` (lines 67-71).

Where the code and its stated design disagree, the model follows the code:

- The `.` in the time pattern matches any character except a newline, digits included.
  So `1:2:345` parses as 1 h 2 min 3 s 5 ms (`Timestamp.ExampleDigitSeparator`).
  The fraction is not scaled either: `0:00:14.92` is 14.092 s (`Timestamp.ExampleShortFraction`).
- Files are handled in listing order; nothing sorts them.
- A fragment's begin time is never checked to be before its end time.
- The part name comes from `rstrip('.json')`, which strips a SET of characters:
  - `lesson.json` gives the part `le`, so its fragments are looked up in `le.xhtml`,
    not in the `lesson.xhtml` that `lesson.txt` was written to
    (`Naming.LessonPartIsTruncated`);
  - `an.json` and `a.json` write the same clips (`Cropping.CollidingParts`).
- In `julius.py`, whitespace between two closing full stops survives the strips before
  the split. It then leaves an empty last sentence: `a。 。` gives `["a", ""]`
  (`Julius.ExampleSpacedStops`). A doubled full stop leaves an empty sentence in the
  middle (`Julius.ExampleDoubledStop`).

## Model

| member | source | states |
|---|---|---|
| PyStr.Strip | align_and_create_anki_deck.py:191 | `lstrip().rstrip()` gives a string with no whitespace at either end, never longer than its input |
| PyStr.StripEmpty | align_and_create_anki_deck.py:191-192 | a line is skipped (strips to empty) exactly when it is all whitespace |
| PyStr.LStrip | align_and_create_anki_deck.py:191 | `lstrip` keeps a suffix of the input that does not start with whitespace |
| PyStr.LStripDropsSpace | align_and_create_anki_deck.py:191 | what `lstrip` removes is whitespace |
| PyStr.RStrip | align_and_create_anki_deck.py:191 | `rstrip` keeps a prefix of the input that does not end with whitespace |
| PyStr.RStripDropsSpace | align_and_create_anki_deck.py:191 | what `rstrip` removes is whitespace |
| PyStr.RStripSpaceTail | align_and_create_anki_deck.py:191 | `rstrip` removes exactly a whitespace tail and stops at the first other character |
| PyStr.RStripChars | align_and_create_anki_deck.py:104 | `rstrip(chars)` keeps a prefix of the input, drops only characters of the set, and the kept part does not end in one |
| PyStr.RStripCharsTail | align_and_create_anki_deck.py:150 | `rstrip(chars)` removes exactly a tail of set characters, up to the first character outside the set |
| PyStr.Split | align_and_create_anki_deck.py:193 | `split` on one character always returns at least one piece |
| PyStr.SplitPiecesFree | align_and_create_anki_deck.py:193 | no piece of a split holds the separator |
| PyStr.SplitJoinBack | align_and_create_anki_deck.py:193 | joining the pieces with the separator gives the line back, so empty pieces are kept |
| PyStr.SplitCount | align_and_create_anki_deck.py:193 | a split gives one piece more than there are separators |
| PyStr.SplitJoin | align_and_create_anki_deck.py:193 | `split` undoes `join` when no piece holds the separator |
| PyStr.RemoveAll | align_and_create_anki_deck.py:227 | `replace('_', '')` removes every underscore and keeps every other character, with its multiplicity |
| PyStr.RemoveAllChar | align_and_create_anki_deck.py:227 | one character is dropped when it is the one replaced and kept otherwise |
| PyStr.RemoveAllAppend | align_and_create_anki_deck.py:227 | `replace` works on each part of a string separately, so the characters kept stay in their order |
| PyStr.Lower | align_and_create_anki_deck.py:203 | `lower()` maps every character through the ASCII lower-case mapping and keeps the length |
| PyStr.NatToDecimal | align_and_create_anki_deck.py:171 | `str(idx)` is a numeral without leading zeros that reads back as `idx` |
| PyStr.ZFill | align_and_create_anki_deck.py:171 | `zfill(width)` is the string with zeros added on the left up to `width`, and the string itself when it is already that long |
| PyStr.ZFillShape | align_and_create_anki_deck.py:171 | `zfill(5)` pads with zeros on the left up to width 5 and never truncates |
| PyStr.LeadingZerosValue | align_and_create_anki_deck.py:171 | the zeros `zfill` adds do not change the value of the numeral |
| Segmentation.LineSentences | align_and_create_anki_deck.py:191-197 | the sentences of one line: nothing for a blank line, else the trimmed non-empty pieces of its split at `。` (its contract is in `ExtractLineSentences`, `LineWithoutTerminator` and `LineVisiblePreserved`) |
| Segmentation.Sentences | align_and_create_anki_deck.py:188-197 | the sentences of a file, line after line (its contract is in `ExtractSentences`, `SentencesAppend`, `SentencesWellFormed` and `SentencesVisiblePreserved`) |
| Segmentation.ExtractSentences | align_and_create_anki_deck.py:188-197 | the generator yields exactly the sentences of the file, line after line, and every one is non-empty, trimmed and free of `。` |
| Segmentation.ExtractLineSentences | align_and_create_anki_deck.py:193-197 | the inner loop yields the trimmed, non-empty pieces of one line, in order |
| Segmentation.SentencesAppend | align_and_create_anki_deck.py:190-197 | the sentences of a file are its lines' sentences concatenated, in line order |
| Segmentation.SentencesWellFormed | align_and_create_anki_deck.py:191-197 | every yielded sentence is non-empty, has no whitespace at either end and holds no `。` |
| Segmentation.LineWithoutTerminator | align_and_create_anki_deck.py:191-197 | a line without `。` yields nothing when blank and exactly its trimmed self otherwise |
| Segmentation.KeepNonEmptyKeepsAll | align_and_create_anki_deck.py:194-197 | pieces that are already trimmed and non-empty are all yielded, unchanged and in order |
| Segmentation.SentencesVisiblePreserved | align_and_create_anki_deck.py:188-197 | segmentation loses, invents and reorders no character other than whitespace and `。` |
| Segmentation.LineVisiblePreserved | align_and_create_anki_deck.py:191-197 | the same for one line |
| Segmentation.ExampleFirstLine | align_and_create_anki_deck.py:191-197 | the line `犬。猫。` plus a newline yields `犬` and `猫`, and no empty sentence after the last `。` |
| Segmentation.ExampleBlankLine | align_and_create_anki_deck.py:192 | a line holding only a newline yields nothing |
| Segmentation.ExampleLastLine | align_and_create_anki_deck.py:193-197 | `鳥。` yields `鳥` |
| Naming.ListFilesWithExtension | align_and_create_anki_deck.py:200-204 | an entry is listed exactly when it is a regular file whose lower-cased name ends in `.ext` |
| Naming.ListFilesOne | align_and_create_anki_deck.py:202-203 | a one-entry listing keeps its entry exactly when the condition holds, and is empty otherwise |
| Naming.ListFilesAppend | align_and_create_anki_deck.py:200-204 | the comprehension keeps the listing order: filtering two listings one after the other is filtering their concatenation |
| Naming.JsonPart | align_and_create_anki_deck.py:104 | the part is the longest prefix of the name left once trailing characters of `.json` are removed |
| Naming.XhtmlName | align_and_create_anki_deck.py:150 | the document name is the text file name minus its trailing `t`/`x` characters, followed by `xhtml` |
| Naming.XhtmlNameOfTxt | align_and_create_anki_deck.py:150 | `stem.txt` always becomes `stem.xhtml`, since the dot stops the strip |
| Naming.JsonPartOfStem | align_and_create_anki_deck.py:104-105 | `stem.json` finds the document of `stem.txt` when the stem does not end in a character of `.json` |
| Naming.LessonPartIsTruncated | align_and_create_anki_deck.py:104 | `lesson.json` gives the part `le`, which is not the document `lesson.txt` was written to |
| Naming.PathJoin | align_and_create_anki_deck.py:222 | a joined path ends with the joined name; an absolute name is the whole path; otherwise the path starts with the folder and adds at most one `/` between the folder and the name |
| Naming.PathJoinSeparator | align_and_create_anki_deck.py:222 | for a relative name, an empty folder gives the name, a folder ending in `/` gives folder plus name, and any other folder gives folder, `/`, name |
| Naming.PathJoinInjective | align_and_create_anki_deck.py:222 | one folder joined to two names of the same kind gives one path only when the names are equal |
| Naming.GenerateAudioCutFilename | align_and_create_anki_deck.py:226-227 | a clip name ends in `.mp3` (its round trip and injectivity are `AudioCutFilenameRoundTrip` and `AudioCutFilenameInjective`) |
| Naming.AudioCutFilenameRoundTrip | align_and_create_anki_deck.py:226-227 | the clip name reads back as the book name without underscores, then the part and the fragment, when the fragment holds no underscore |
| Naming.AudioCutFilenameInjective | align_and_create_anki_deck.py:226-227 | two clips of one book share a name only if they share the part and the fragment, when neither fragment holds an underscore (fragment ids never do: `Tagging.FragmentIdNoUnderscore`) |
| Tagging.FragmentId | align_and_create_anki_deck.py:171 | an id is `f` followed by at least five characters (its round trip is `FragmentIdRoundTrip`) |
| Tagging.FragmentIdRoundTrip | align_and_create_anki_deck.py:171 | the ordinal reads back out of its fragment id |
| Tagging.FragmentIdInjective | align_and_create_anki_deck.py:171 | distinct ordinals give distinct ids |
| Tagging.FragmentIdLength | align_and_create_anki_deck.py:171 | an id has at least six characters, and exactly six when the ordinal is below 100000 |
| Tagging.FragmentIdDigits | align_and_create_anki_deck.py:171 | an id is `f` followed by decimal digits only |
| Tagging.FragmentIdNoUnderscore | align_and_create_anki_deck.py:171 | an id holds no underscore, so clip names can be read back |
| Tagging.ConvertTextFileToXhtml | align_and_create_anki_deck.py:162-185 | no document is written exactly when the file has no sentence; otherwise the document holds the i-th sentence under id `FragmentId(i)`, the ids are pairwise distinct |
| Tagging.TaggedDocumentUnique | align_and_create_anki_deck.py:169-177 | a tagged document is determined by its sentences |
| Tagging.ConvertTextFilesToXhtml | align_and_create_anki_deck.py:142-151 | the documents written are those of the `.txt` files in listing order; a file without sentences writes nothing, a later file with the same document name overwrites |
| Tagging.DocumentSource | align_and_create_anki_deck.py:147-151 | every document on disk comes from the last text file of that document name that had sentences, and holds them tagged 0, 1, 2, … |
| Tagging.DocumentWritten | align_and_create_anki_deck.py:147-151 | every text file with a sentence has its document on disk |
| Tagging.DocumentsWellFormed | align_and_create_anki_deck.py:142-185 | every document on disk is non-empty, its ids are consecutive from `f00000`, its texts are well-formed sentences, and it is the tagging of one of the text files named after it |
| Timestamp.MatchGroups | align_and_create_anki_deck.py:235 | `re.match` of the time pattern: the groups of the match backtracking finds first, or no match (its contract is in `MatchGroupsSound` and `MatchGroupsComplete`) |
| Timestamp.MatchGroupsSound | align_and_create_anki_deck.py:235 | whatever the match returns spells the time out: four digit groups, two colons, one separator, and an optional final newline |
| Timestamp.MatchGroupsComplete | align_and_create_anki_deck.py:235 | every time the pattern can match is matched, and backtracking gives the seconds group as many characters as any match can |
| Timestamp.MatchTailComplete | align_and_create_anki_deck.py:235 | the backtracking over `(\d+).(\d+)$` finds a split whenever there is one, ending the seconds as late as any |
| Timestamp.MatchCutComplete | align_and_create_anki_deck.py:235 | the search finds boundaries whenever valid ones exist, and ends the seconds as late as any valid boundaries do |
| Timestamp.ValidCutsAgree | align_and_create_anki_deck.py:235 | all matches of one time agree on the hours, the minutes and where the match ends |
| Timestamp.MatchCutAt | align_and_create_anki_deck.py:235 | the match is a given valid split when nothing after the seconds could extend them |
| Timestamp.FragmentTimeToMillis | align_and_create_anki_deck.py:236-237 | a time that fails to parse raises the error naming that time |
| Timestamp.FragmentTimeParses | align_and_create_anki_deck.py:230-238 | a time parses exactly when the pattern can match it; its value is hours·3600 + minutes·60 + seconds seconds plus the fourth group in milliseconds, read from the match with the longest seconds group |
| Timestamp.FragmentTimeToSeconds | align_and_create_anki_deck.py:230-238 | a time that fails to parse raises the error naming that time; the value is related to the milliseconds by `SecondsAreMillis` |
| Timestamp.SecondsAreMillis | align_and_create_anki_deck.py:238 | the real-valued result parses exactly when the millisecond one does, and equals it divided by 1000 |
| Timestamp.NonDigitSeparator | align_and_create_anki_deck.py:235-238 | a time written with a non-digit separator, with or without a final newline, reads as its four numbers |
| Timestamp.DigitSeparator | align_and_create_anki_deck.py:235-238 | with a digit as separator and a one-digit fraction, the time still reads as those four numbers |
| Timestamp.ExampleDocstring | align_and_create_anki_deck.py:232-233 | `0:00:14.920` is 14.920 s, with and without a final newline |
| Timestamp.ExampleShortFraction | align_and_create_anki_deck.py:238 | `0:00:14.92` is 14 s and 92 ms: the fraction is divided by 1000 whatever its length |
| Timestamp.ExampleDigitSeparator | align_and_create_anki_deck.py:235 | `1:2:345` matches, with `4` as separator, and is 1 h 2 min 3 s 5 ms |
| Timestamp.NoLeadingDigit | align_and_create_anki_deck.py:235-237 | a time that does not start with a digit raises the parse error |
| Timestamp.ExampleMalformed | align_and_create_anki_deck.py:235-237 | `bad` raises the parse error |
| Cropping.CropAudio | align_and_create_anki_deck.py:241-250 | a crop fails exactly when `ffmpeg` exits with a non-zero code, and the error carries that code and the command's arguments |
| Cropping.FragmentCrop | align_and_create_anki_deck.py:218-223 | a fragment asks for a crop exactly when its record has both times, both parse, and it names its audio; the crop then goes from that audio, between those times, to the fragment's clip; otherwise the error is the first in source order of: missing `begin_time`, unparsable begin time, missing `end_time`, unparsable end time, missing `audio_file` |
| Cropping.CutRun | align_and_create_anki_deck.py:211-223 | the crops and the error of the loops, fragment after fragment, stopping at the first error (its contract is in `CutRunSucceeds`, `CutRunCrops`, `CutRunFirstError` and `CutRunCropAt`) |
| Cropping.CutAudioFragments | align_and_create_anki_deck.py:207-223 | the loops over the `.json` files and their fragments issue exactly the crops of the run, in order, and raise exactly the run's error |
| Cropping.CutRunSucceeds | align_and_create_anki_deck.py:211-223 | nothing is raised exactly when every fragment's record is complete, its times parse and its crop succeeds |
| Cropping.CutRunCrops | align_and_create_anki_deck.py:211-223 | a run that raised nothing made one crop per fragment, in order: the one that fragment asks for |
| Cropping.CutRunFirstError | align_and_create_anki_deck.py:211-223 | a run that raised stopped at its first failing fragment: everything before it succeeded and nothing after it was tried |
| Cropping.CutRunCropAt | align_and_create_anki_deck.py:218-223 | in a run that raised nothing, the k-th crop cuts the k-th fragment's audio between its parsed times into that fragment's clip |
| Cropping.ClipNameStart | align_and_create_anki_deck.py:227 | every clip name starts with the first character of the book name without underscores, or with `_` when nothing is left of it |
| Cropping.ClipPathInjective | align_and_create_anki_deck.py:220-222 | two fragments of one alignment file never write the same clip unless they are the same fragment, whatever characters the fragment keys hold |
| Cropping.CollidingParts | align_and_create_anki_deck.py:220-222 | `an.json` and `a.json` write their fragments to the same clips |
| Deck.ResolveDeckPath | align_and_create_anki_deck.py:36-40 | the deck path is the book name plus `.apkg` when none is given, the given path when it ends in `.apkg`, and an error otherwise |
| Deck.IndexOf | align_and_create_anki_deck.py:137 | the key lookup finds the first position of a key, or reports there is none |
| Deck.Put | align_and_create_anki_deck.py:137 | `d[k] = v` gives `k` the value `v`, keeps every other key's value and keeps keys distinct |
| Deck.PutKeys | align_and_create_anki_deck.py:137 | `d[k] = v` keeps the keys and their order, and appends `k` when it is new |
| Deck.GetPut | align_and_create_anki_deck.py:137 | a lookup after `d[k] = v` finds `v` under `k` and the old value under any other key |
| Deck.SentencesByFragmentKeys | align_and_create_anki_deck.py:131-139 | the dict has distinct keys and no more items than the document has elements |
| Deck.GetSentencesByFragment | align_and_create_anki_deck.py:127-139 | reading a part fails exactly when its document does not exist; otherwise it gives the dict of that document's elements, in order |
| Deck.SentencesByFragmentLastWins | align_and_create_anki_deck.py:134-137 | an id keeps the text of its last element |
| Deck.SentencesByFragmentAbsent | align_and_create_anki_deck.py:134-137 | an id that no element carries is not a key |
| Deck.SentencesByFragmentDistinct | align_and_create_anki_deck.py:134-139 | with distinct ids the dict holds every element, in document order |
| Deck.TaggedDocumentReadBack | align_and_create_anki_deck.py:127-139 | a document the conversion wrote reads back as its sentences under `f00000`, `f00001`, … in order |
| Deck.Cards | align_and_create_anki_deck.py:102-107 | the cards of the deck, part after part in listing order, or the error of the first part without a document (its contract is in `CardsSucceed` and `CardsFail`) |
| Deck.AnkiDeck | align_and_create_anki_deck.py:76-124 | the package the corrected function writes, or its error (its contract is in `DeckNotes` and `AsWrittenHasNoNotes`) |
| Deck.GenerateAnkiDeck | align_and_create_anki_deck.py:76-124 | the corrected deck loop computes exactly the specified deck: id 2059400110, the name `Audiobook: ` plus the book name, one note per card, one media path per note, written to the deck path |
| Deck.AddPartNotes | align_and_create_anki_deck.py:107-122 | the inner loop adds one note and one media path per item of a part's dict, and `idx` counts the notes |
| Deck.CardsSucceed | align_and_create_anki_deck.py:103-105 | the deck is written exactly when every alignment file's part has its document |
| Deck.CardsFail | align_and_create_anki_deck.py:103-105 | once a part lacks its document, later files change nothing |
| Deck.DeckNotes | align_and_create_anki_deck.py:107-122 | the notes are numbered 0, 1, 2, … across all parts; each shows its sentence and plays the clip named after its part and fragment; the media list holds that clip's path at the same position |
| Deck.GenerateAnkiDeckAsWritten | align_and_create_anki_deck.py:100-124 | the deck loop as written computes exactly the specified outcome, including the TypeError of line 108 |
| Deck.AsWrittenVsCards | align_and_create_anki_deck.py:102-122 | where every document exists, the loop as written raises TypeError exactly when some note would be made |
| Deck.AsWrittenHasNoNotes | align_and_create_anki_deck.py:76-124 | the deck as written never holds a note, and agrees with the corrected deck exactly on decks without notes |
| Deck.ExampleTypeError | align_and_create_anki_deck.py:108 | one alignment file `a.json` whose document holds one sentence: the corrected loop makes one note, the loop as written raises TypeError |
| Julius.Body | julius.py:17 | after `rstrip().rstrip("。")` the text does not end in `。` |
| Julius.SplitSentences | julius.py:17 | there is at least one sentence and every sentence is stripped (`SplitSentencesCount` and `SplitSentencesClean` say more) |
| Julius.SplitSentencesCount | julius.py:17 | there is one sentence per `。` left in the body, plus one; the pieces join back to the body, and the last is non-empty unless the body is empty |
| Julius.SplitSentencesClean | julius.py:17 | every sentence has no whitespace at either end and holds no `。` |
| Julius.ExampleDoubledStop | julius.py:17 | `a。。b。` gives `a`, an empty sentence, then `b` |
| Julius.ExampleSpacedStops | julius.py:17 | `a。 。` gives `a` and an empty last sentence |
| Julius.Transcripts | julius.py:20-21 | one transcript per line of the phoneme file, each with its trailing whitespace removed |
| Julius.WriteSegmenterInput | julius.py:30-32 | the loop writes exactly the segmenter input: each transcript framed as `silB … silE `, followed by a newline |
| Julius.JoinTerminated | julius.py:31-32 | newline-terminated lines are the lines joined with newlines, plus one final newline |
| Julius.SegmenterInputLines | julius.py:30-32 | read back line by line, the segmenter input holds one framed line per transcript, in order, then nothing |
| Julius.Step | julius.py:55-61 | `silB` sets the start to its end time and keeps the end; `silE` records the current sentence from the start to its begin time and moves to the next sentence, or raises IndexError when no sentence is left and NameError when no `silB` came first; any other unit changes nothing |
| Julius.Run | julius.py:53-61 | the state after the loop over the units, stopping at the first error (its contract is in `RunState`, `RunPrefix`, `RunEntry`, `RunSucceeds` and `RunFirstError`) |
| Julius.Timings | julius.py:53-61 | the timings the loop leaves in `sentences_timing`, or its error |
| Julius.PairSentenceTimings | julius.py:53-61 | the loop computes exactly the timings of the run over the units, or the error it stops with |
| Julius.RunState | julius.py:53-61 | while nothing has raised, the sentence index equals the number of timings and of `silE` units, and the start is the latest `silB`'s end time |
| Julius.RunPrefix | julius.py:53-61 | earlier timings are never changed: the timings after a prefix of the units are a prefix of the timings |
| Julius.RunEntry | julius.py:55-61 | the k-th `silE` records the k-th sentence, from the end of the latest `silB` before it to its own begin time |
| Julius.RunSucceeds | julius.py:53-61 | the loop raises nothing exactly when there are no more `silE` units than sentences and every `silE` has a `silB` before it |
| Julius.RunFirstError | julius.py:53-61 | the loop stops at the first `silE` that raises: IndexError exactly when all sentences were used, NameError when no `silB` came before |
| Julius.AlignSample | julius.py:15-61 | unequal numbers of sentences and transcripts fail the assertion before anything is written; otherwise the segmenter input is written, a result count other than one fails the second assertion, and one result gives exactly the paired timings |

## Left out

- File and folder I/O is left out. Text, alignment and phoneme files are given as
  values, written documents are returned as values, and folder listings are parameters
  whose order is `listdir`'s.
- `mkdir` and `cleanup_folder` (lines 143-144, 154-159, 208-209) are left out. The
  model starts from empty output folders.
- The existence checks of the data folder (lines 42-46) and the argument parsing and
  logging of `main` are left out. Only the choice of the deck path is modelled.
- The forced aligner `align` (lines 55-64), `ffmpeg` and the Julius segmenter
  `PySegmentKit` (`julius.py` lines 35-46) are external. Only `ffmpeg`'s exit code is
  modelled, as a function of the crop request, and the segmenter's result is a parameter.
- XML writing and parsing (`ElementTree`) and JSON parsing are left out. A document is
  its `(id, text)` elements, and an alignment file is its `(fragment, record)` items with
  string values; values of other JSON types and other top-level shapes are not modelled.
- `genanki` is left out. The package is a value holding the deck's id and name, the
  notes, the media paths and the deck path. The note model (id 1607392319, its fields
  and template, lines 77-90) and the writing of the file are not modelled.
- Timestamp.FragmentTimeToSeconds: floating point is not modelled. The value is the
  exact real (whole milliseconds divided by 1000), and `str(begin_ts)` in the `ffmpeg`
  command is not rendered.
- Timestamp.FragmentTimeToMillis: `\d` is restricted to the ASCII digits. Python's
  `re` also matches other Unicode decimal digits there. Integers are unbounded, so the
  model returns a value where Python raises: `int()` of a group longer than 4300 digits
  raises ValueError from Python 3.11 on, and a result too large for a float raises
  OverflowError.
- Deck.TaggedDocumentReadBack: a sentence holding a character XML does not allow
  (a form feed, say) is written raw by `ElementTree`, and `ET.parse` then raises. The
  model reads every document back, so this lemma promises more than the source does.
- PyStr.Lower: only ASCII letters are lower-cased. The extensions compared are ASCII.
- Printing and logging are left out, and so are `julius.py` lines 63-85, which write
  the markers file and compute the distance to the reference timings.
- `add_fragments_to_html.py` and the two test scripts are not part of this model.

## Findings

| source | as written | input that shows it | evidently intended | confidence | as-written member | corrected member |
|---|---|---|---|---|---|---|
| align_and_create_anki_deck.py:108 | `generate_audio_cut_filename(part, fragment)` passes two arguments to a three-parameter function, so the first note of any deck raises TypeError | one alignment file `a.json` whose document `a.xhtml` holds one sentence | `generate_audio_cut_filename(book_name, part, fragment)`, the clip name `cut_audio_fragments` gave the clip | not executed | Deck.GenerateAnkiDeckAsWritten | Deck.GenerateAnkiDeck |
