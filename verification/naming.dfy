/**
 * File names derived from other file names: the directory filter
 * `list_files_with_extension`, the part names obtained with `str.rstrip`, and
 * `generate_audio_cut_filename`.
 */
module Naming {
  import opened PyStr
  import opened Wrappers

  /** One entry of a directory listing, in `listdir` order, with what `open` would read from it. */
  datatype Entry<C> = Entry(name: string, isFile: bool, content: C)

  /** The test of `list_files_with_extension`: a case-insensitive `.ext` ending. */
  predicate HasExtension(name: string, extension: string) {
    EndsWith(Lower(name), "." + extension)
  }

  /** The comprehension of `list_files_with_extension`: regular files with the extension, in listing order. */
  function ListFilesWithExtension<C(!new)>(entries: seq<Entry<C>>, extension: string): (r: seq<Entry<C>>)
    ensures |r| <= |entries|
    ensures forall e :: e in r <==> e in entries && e.isFile && HasExtension(e.name, extension)
  {
    if |entries| == 0 then []
    else
      var e := entries[0];
      var rest := ListFilesWithExtension(entries[1..], extension);
      assert forall x :: x in entries <==> x == e || x in entries[1..];
      if e.isFile && HasExtension(e.name, extension) then [e] + rest else rest
  }

  /** One entry is listed when it is a regular file with the extension, and dropped otherwise. */
  lemma ListFilesOne<C(!new)>(e: Entry<C>, extension: string)
    ensures ListFilesWithExtension([e], extension) == if e.isFile && HasExtension(e.name, extension) then [e] else []
  {
    assert [e][1..] == [];
  }

  /** The listing is filtered in its own order: each part of it is filtered separately. */
  lemma {:induction false} ListFilesAppend<C(!new)>(a: seq<Entry<C>>, b: seq<Entry<C>>, extension: string)
    ensures ListFilesWithExtension(a + b, extension) == ListFilesWithExtension(a, extension) + ListFilesWithExtension(b, extension)
  {
    if |a| == 0 {
      assert a + b == b;
    } else {
      assert (a + b)[0] == a[0];
      assert (a + b)[1..] == a[1..] + b;
      ListFilesAppend(a[1..], b, extension);
    }
  }

  /** The characters `rstrip('.json')` removes. */
  const JsonChars: set<char> := {'.', 'j', 's', 'o', 'n'}

  /** The characters `rstrip("txt")` removes. */
  const TxtChars: set<char> := {'t', 'x'}

  /** The part name of an alignment file: `json_file.rstrip('.json')`, a character-set strip. */
  function JsonPart(jsonName: string): (part: string)
    ensures |part| <= |jsonName| && part == jsonName[..|part|]
    ensures part == [] || part[|part| - 1] !in JsonChars
    ensures forall i :: |part| <= i < |jsonName| ==> jsonName[i] in JsonChars
  {
    RStripChars(jsonName, JsonChars)
  }

  /** The document written for a text file: `txt_file.rstrip("txt") + "xhtml"`. */
  function XhtmlName(txtName: string): (name: string)
    ensures EndsWith(name, "xhtml")
    ensures var stem := name[..|name| - 5];
      && |stem| <= |txtName| && stem == txtName[..|stem|]
      && (stem == [] || stem[|stem| - 1] !in TxtChars)
      && forall i :: |stem| <= i < |txtName| ==> txtName[i] in TxtChars
  {
    var stem := RStripChars(txtName, TxtChars);
    assert (stem + "xhtml")[..|stem|] == stem;
    stem + "xhtml"
  }

  /** A text file `stem.txt` always becomes the document `stem.xhtml`: the dot stops the strip. */
  lemma XhtmlNameOfTxt(stem: string)
    ensures XhtmlName(stem + ".txt") == stem + ".xhtml"
  {
    RStripCharsTail(stem + ".", "txt", TxtChars);
    assert stem + ".txt" == (stem + ".") + "txt";
  }

  /**
   * An alignment file `stem.json` gets the part name `stem`, and so finds the
   * document `stem.xhtml`, when `stem` does not end in one of the characters of `.json`.
   */
  lemma JsonPartOfStem(stem: string)
    requires stem == [] || stem[|stem| - 1] !in JsonChars
    ensures JsonPart(stem + ".json") == stem
    ensures JsonPart(stem + ".json") + ".xhtml" == XhtmlName(stem + ".txt")
  {
    RStripCharsTail(stem, ".json", JsonChars);
    XhtmlNameOfTxt(stem);
  }

  /** The character-set strip eats into the stem: "lesson.json" gives the part "le". */
  lemma LessonPartIsTruncated()
    ensures JsonPart("lesson.json") == "le"
    ensures XhtmlName("lesson.txt") == "lesson.xhtml"
    ensures JsonPart("lesson.json") + ".xhtml" != XhtmlName("lesson.txt")
  {
    RStripCharsTail("le", "sson.json", JsonChars);
    assert "le" + "sson.json" == "lesson.json";
    XhtmlNameOfTxt("lesson");
    assert "lesson" + ".txt" == "lesson.txt";
  }

  /** A name that starts at the root. */
  predicate Absolute(name: string) {
    |name| > 0 && name[0] == '/'
  }

  /**
   * `os.path.join(folder, name)` with POSIX separators: an absolute `name`
   * replaces the folder; a relative one follows the folder, with one `/`
   * between them unless the folder is empty or already ends in one.
   */
  function PathJoin(folder: string, name: string): (path: string)
    ensures EndsWith(path, name)
    ensures Absolute(name) ==> path == name
    ensures !Absolute(name) ==> |folder| + |name| <= |path| <= |folder| + 1 + |name| && path[..|folder|] == folder
  {
    if Absolute(name) then name
    else if |folder| == 0 || folder[|folder| - 1] == '/' then folder + name
    else folder + "/" + name
  }

  /**
   * Between a folder and a relative name there is exactly one `/`: the
   * folder's own last character, or one that the join inserts.
   */
  lemma PathJoinSeparator(folder: string, name: string)
    requires !Absolute(name)
    ensures folder == [] ==> PathJoin(folder, name) == name
    ensures folder != [] && folder[|folder| - 1] == '/' ==> PathJoin(folder, name) == folder + name
    ensures folder != [] && folder[|folder| - 1] != '/' ==> PathJoin(folder, name) == folder + "/" + name
  {
  }

  /** Two relative names, or two absolute ones, joined to one folder give one path only if they are equal. */
  lemma PathJoinInjective(folder: string, name1: string, name2: string)
    requires Absolute(name1) == Absolute(name2)
    requires PathJoin(folder, name1) == PathJoin(folder, name2)
    ensures name1 == name2
  {
    var p := PathJoin(folder, name1);
    assert |name1| == |name2|;
    assert name1 == p[|p| - |name1|..] == name2;
  }

  /** The name of the clip of one fragment: `f"{book_name.replace('_', '')}_{part}_{fragment}.mp3"`. */
  function GenerateAudioCutFilename(bookName: string, part: string, fragment: string): (name: string)
    ensures EndsWith(name, ".mp3")
  {
    RemoveAll(bookName, '_') + "_" + part + "_" + fragment + ".mp3"
  }

  /** Splits at the first occurrence of `c`. */
  function SplitFirst(s: string, c: char): (r: Option<(string, string)>)
    ensures r.Some? ==> c !in r.value.0 && s == r.value.0 + [c] + r.value.1
  {
    if |s| == 0 then None
    else if s[0] == c then Some(([], s[1..]))
    else match SplitFirst(s[1..], c)
      case None => None
      case Some((a, b)) => Some(([s[0]] + a, b))
  }

  /** Splits at the last occurrence of `c`. */
  function SplitLast(s: string, c: char): (r: Option<(string, string)>)
    ensures r.Some? ==> c !in r.value.1 && s == r.value.0 + [c] + r.value.1
  {
    if |s| == 0 then None
    else if s[|s| - 1] == c then Some((s[..|s| - 1], []))
    else match SplitLast(s[..|s| - 1], c)
      case None => None
      case Some((a, b)) => Some((a, b + [s[|s| - 1]]))
  }

  lemma {:induction false} SplitFirstOf(a: string, c: char, b: string)
    requires c !in a
    ensures SplitFirst(a + [c] + b, c) == Some((a, b))
  {
    var s := a + [c] + b;
    if |a| > 0 {
      assert s[0] == a[0] && s[1..] == a[1..] + [c] + b;
      SplitFirstOf(a[1..], c, b);
      assert [a[0]] + a[1..] == a;
    } else {
      assert s[1..] == b;
    }
  }

  lemma {:induction false} SplitLastOf(a: string, c: char, b: string)
    requires c !in b
    ensures SplitLast(a + [c] + b, c) == Some((a, b))
  {
    var s := a + [c] + b;
    if |b| > 0 {
      assert s[|s| - 1] == b[|b| - 1] && s[..|s| - 1] == a + [c] + b[..|b| - 1];
      SplitLastOf(a, c, b[..|b| - 1]);
      assert b[..|b| - 1] + [b[|b| - 1]] == b;
    } else {
      assert s[..|s| - 1] == a;
    }
  }

  /** Reads the book, part and fragment back out of a clip name. */
  function ParseAudioCutFilename(name: string): Option<(string, string, string)>
  {
    if !EndsWith(name, ".mp3") then None
    else match SplitFirst(name[..|name| - 4], '_')
      case None => None
      case Some((book, rest)) =>
        match SplitLast(rest, '_')
        case None => None
        case Some((part, fragment)) => Some((book, part, fragment))
  }

  /**
   * The clip name can be read back: the book name loses its underscores, and
   * the part and the fragment come back unchanged whenever the fragment has no
   * underscore (fragment ids never do).
   */
  lemma AudioCutFilenameRoundTrip(bookName: string, part: string, fragment: string)
    requires '_' !in fragment
    ensures ParseAudioCutFilename(GenerateAudioCutFilename(bookName, part, fragment))
         == Some((RemoveAll(bookName, '_'), part, fragment))
  {
    var book := RemoveAll(bookName, '_');
    var rest := part + "_" + fragment;
    var name := GenerateAudioCutFilename(bookName, part, fragment);
    assert name == (book + "_" + rest) + ".mp3";
    assert name[..|name| - 4] == book + ['_'] + rest;
    SplitFirstOf(book, '_', rest);
    assert rest == part + ['_'] + fragment;
    SplitLastOf(part, '_', fragment);
  }

  /** So two clips of one book collide only if they are the same part and fragment. */
  lemma AudioCutFilenameInjective(bookName: string, part1: string, fragment1: string, part2: string, fragment2: string)
    requires '_' !in fragment1 && '_' !in fragment2
    requires GenerateAudioCutFilename(bookName, part1, fragment1) == GenerateAudioCutFilename(bookName, part2, fragment2)
    ensures part1 == part2 && fragment1 == fragment2
  {
    AudioCutFilenameRoundTrip(bookName, part1, fragment1);
    AudioCutFilenameRoundTrip(bookName, part2, fragment2);
  }
}
