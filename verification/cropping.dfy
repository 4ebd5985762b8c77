/**
 * Cutting the audio into one clip per fragment, as `cut_audio_fragments` and
 * `crop_audio` do it: every alignment file of the folder is read, and every
 * fragment of it, in file order and then in the file's own order, has its two
 * times parsed and one `ffmpeg` crop issued into the clip folder. The first
 * exception ends the whole run.
 *
 * An alignment file is given as the items of the object `json.load` returns;
 * `ffmpeg` is given as the return code it exits with for each crop.
 */
module Cropping {
  import opened PyStr
  import opened Wrappers
  import opened Seqs
  import opened Naming
  import opened Timestamp

  /** A fragment's record in an alignment file: its fields by key. */
  type Record = map<string, string>

  /** One loaded alignment file: `(fragment id, record)` items in file order. */
  type Alignment = seq<(string, Record)>

  /** One `ffmpeg` call: source audio, clip path, and both times in milliseconds. */
  datatype CropRequest = CropRequest(src: string, dst: string, begin: nat, end: nat)

  /** The exceptions that end a run. */
  datatype CropError =
    | MissingKey(key: string)                          // KeyError from `fragment_data[key]`
    | BadTime(error: ParseError)                       // ValueError from `fragment_time_to_float`
    | CropFailed(returnCode: int, request: CropRequest) // ValueError from `crop_audio`

  /** The check `crop_audio` makes once `ffmpeg` has exited: any non-zero code is an error. */
  function CropAudio(request: CropRequest, returnCode: int): (r: Result<(), CropError>)
    ensures r.Ok? <==> returnCode == 0
    ensures r.Err? ==> r.error == CropFailed(returnCode, request)
  {
    if returnCode != 0 then Err(CropFailed(returnCode, request)) else Ok(())
  }

  /** One fragment of one alignment file, with the name of that file. */
  datatype Item = Item(jsonName: string, fragment: string, record: Record)

  /** The fragments of one alignment file, in its order. */
  function FileItems(file: Entry<Alignment>): (r: seq<Item>)
    ensures |r| == |file.content|
    ensures forall j :: 0 <= j < |r| ==> r[j] == Item(file.name, file.content[j].0, file.content[j].1)
  {
    seq(|file.content|, j requires 0 <= j < |file.content| => Item(file.name, file.content[j].0, file.content[j].1))
  }

  /** All fragments of all files, file after file. */
  function Items(files: seq<Entry<Alignment>>): seq<Item>
  {
    FlatMap(FileItems, files)
  }

  /** The clip of a fragment: `join(dst_folder, generate_audio_cut_filename(book_name, part, fragment))`. */
  function ClipPath(dstFolder: string, bookName: string, jsonName: string, fragment: string): string
  {
    PathJoin(dstFolder, GenerateAudioCutFilename(bookName, JsonPart(jsonName), fragment))
  }

  /** The record holds a time under `key`, and that time parses. */
  predicate TimeParses(record: Record, key: string) {
    key in record && FragmentTimeToMillis(record[key]).Ok?
  }

  /**
   * The crop one fragment asks for (lines 218-223), or the exception raised
   * before `ffmpeg` runs, in the order the lines evaluate: the begin time is
   * looked up and parsed, then the end time, then the source audio is looked up.
   */
  function FragmentCrop(dstFolder: string, bookName: string, item: Item): (r: Result<CropRequest, CropError>)
    ensures r.Ok? <==> TimeParses(item.record, "begin_time") && TimeParses(item.record, "end_time") && "audio_file" in item.record
    ensures r.Ok? ==> r.value == CropRequest(item.record["audio_file"],
                                             ClipPath(dstFolder, bookName, item.jsonName, item.fragment),
                                             FragmentTimeToMillis(item.record["begin_time"]).value,
                                             FragmentTimeToMillis(item.record["end_time"]).value)
    ensures "begin_time" !in item.record ==> r == Err(MissingKey("begin_time"))
    ensures "begin_time" in item.record && !TimeParses(item.record, "begin_time") ==>
              r == Err(BadTime(FailedToParse(item.record["begin_time"])))
    ensures TimeParses(item.record, "begin_time") && "end_time" !in item.record ==>
              r == Err(MissingKey("end_time"))
    ensures TimeParses(item.record, "begin_time") && "end_time" in item.record && !TimeParses(item.record, "end_time") ==>
              r == Err(BadTime(FailedToParse(item.record["end_time"])))
    ensures TimeParses(item.record, "begin_time") && TimeParses(item.record, "end_time") && "audio_file" !in item.record ==>
              r == Err(MissingKey("audio_file"))
  {
    var record := item.record;
    if "begin_time" !in record then Err(MissingKey("begin_time"))
    else match FragmentTimeToMillis(record["begin_time"])
      case Err(e) => Err(BadTime(e))
      case Ok(begin) =>
        if "end_time" !in record then Err(MissingKey("end_time"))
        else match FragmentTimeToMillis(record["end_time"])
          case Err(e) => Err(BadTime(e))
          case Ok(end) =>
            if "audio_file" !in record then Err(MissingKey("audio_file"))
            else Ok(CropRequest(record["audio_file"], ClipPath(dstFolder, bookName, item.jsonName, item.fragment), begin, end))
  }

  /** What every fragment asks for, in order. */
  function Requests(dstFolder: string, bookName: string, items: seq<Item>): (r: seq<Result<CropRequest, CropError>>)
    ensures |r| == |items|
    ensures forall k :: 0 <= k < |items| ==> r[k] == FragmentCrop(dstFolder, bookName, items[k])
  {
    seq(|items|, k requires 0 <= k < |items| => FragmentCrop(dstFolder, bookName, items[k]))
  }

  lemma RequestsAppend(dstFolder: string, bookName: string, a: seq<Item>, b: seq<Item>)
    ensures Requests(dstFolder, bookName, a + b) == Requests(dstFolder, bookName, a) + Requests(dstFolder, bookName, b)
  {
  }

  /** The crops issued so far and the exception that ended the run, if any. */
  datatype Run = Run(crops: seq<CropRequest>, error: Option<CropError>)

  /** What handling one more fragment does to a run that has not failed. */
  function Attempt(crops: seq<CropRequest>, request: Result<CropRequest, CropError>, returnCode: CropRequest -> int): Run
  {
    match request
    case Err(e) => Run(crops, Some(e))
    case Ok(req) =>
      match CropAudio(req, returnCode(req))
      case Ok(_) => Run(crops + [req], None)
      case Err(e) => Run(crops + [req], Some(e))
  }

  /** The run over the fragments' requests: each is handled in turn until one fails. */
  function CutRun(requests: seq<Result<CropRequest, CropError>>, returnCode: CropRequest -> int): Run
  {
    if |requests| == 0 then Run([], None)
    else
      var r := CutRun(requests[..|requests| - 1], returnCode);
      if r.error.Some? then r
      else Attempt(r.crops, requests[|requests| - 1], returnCode)
  }

  lemma CutRunSnoc(requests: seq<Result<CropRequest, CropError>>, request: Result<CropRequest, CropError>,
                   returnCode: CropRequest -> int)
    ensures var r := CutRun(requests, returnCode);
      CutRun(requests + [request], returnCode)
        == if r.error.Some? then r else Attempt(r.crops, request, returnCode)
  {
    assert (requests + [request])[..|requests|] == requests;
  }

  /** Once a run has failed, later fragments change nothing. */
  lemma {:induction false} CutRunStops(a: seq<Result<CropRequest, CropError>>, b: seq<Result<CropRequest, CropError>>,
                                       returnCode: CropRequest -> int)
    requires CutRun(a, returnCode).error.Some?
    ensures CutRun(a + b, returnCode) == CutRun(a, returnCode)
  {
    if |b| == 0 {
      assert a + b == a;
    } else {
      var b' := b[..|b| - 1];
      CutRunStops(a, b', returnCode);
      assert a + b == (a + b') + [b[|b| - 1]];
      CutRunSnoc(a + b', b[|b| - 1], returnCode);
    }
  }

  /** The fragments handled before fragment j of file i. */
  function Done(files: seq<Entry<Alignment>>, i: nat, j: nat): seq<Item>
    requires i < |files| && j <= |files[i].content|
  {
    Items(files[..i]) + FileItems(files[i])[..j]
  }

  /** The fragments after position j of file i, then those of the later files. */
  lemma ItemsAround(files: seq<Entry<Alignment>>, i: nat, j: nat)
    requires i < |files| && j < |files[i].content|
    ensures Items(files) == Done(files, i, j + 1) + (FileItems(files[i])[j + 1..] + Items(files[i + 1..]))
  {
    assert files == files[..i] + [files[i]] + files[i + 1..];
    FlatMapAppend(FileItems, files[..i] + [files[i]], files[i + 1..]);
    FlatMapSnoc(FileItems, files[..i], files[i]);
    var f := FileItems(files[i]);
    assert f == f[..j + 1] + f[j + 1..];
  }

  /** The requests of the handled fragments grow by one request per fragment. */
  lemma DoneSnoc(dstFolder: string, bookName: string, files: seq<Entry<Alignment>>, i: nat, j: nat)
    requires i < |files| && j < |files[i].content|
    ensures Requests(dstFolder, bookName, Done(files, i, j + 1))
         == Requests(dstFolder, bookName, Done(files, i, j)) + [FragmentCrop(dstFolder, bookName, FileItems(files[i])[j])]
  {
    var f := FileItems(files[i]);
    assert Done(files, i, j + 1) == Done(files, i, j) + [f[j]] by {
      assert f[..j + 1] == f[..j] + [f[j]];
    }
    RequestsAppend(dstFolder, bookName, Done(files, i, j), [f[j]]);
  }

  /** The requests of all fragments: the handled ones, then the rest. */
  lemma RequestsAround(dstFolder: string, bookName: string, files: seq<Entry<Alignment>>, i: nat, j: nat)
    requires i < |files| && j < |files[i].content|
    ensures Requests(dstFolder, bookName, Items(files))
         == Requests(dstFolder, bookName, Done(files, i, j + 1))
            + Requests(dstFolder, bookName, FileItems(files[i])[j + 1..] + Items(files[i + 1..]))
  {
    ItemsAround(files, i, j);
    RequestsAppend(dstFolder, bookName, Done(files, i, j + 1), FileItems(files[i])[j + 1..] + Items(files[i + 1..]));
  }

  /**
   * Handling fragment j of file i extends the run by one attempt, and an
   * attempt that raises is what the whole run ends with.
   */
  lemma DoneStep(dstFolder: string, bookName: string, files: seq<Entry<Alignment>>, i: nat, j: nat,
                 returnCode: CropRequest -> int)
    requires i < |files| && j < |files[i].content|
    requires CutRun(Requests(dstFolder, bookName, Done(files, i, j)), returnCode).error.None?
    ensures var run := Attempt(CutRun(Requests(dstFolder, bookName, Done(files, i, j)), returnCode).crops,
                               FragmentCrop(dstFolder, bookName, FileItems(files[i])[j]), returnCode);
      && CutRun(Requests(dstFolder, bookName, Done(files, i, j + 1)), returnCode) == run
      && (run.error.Some? ==> CutRun(Requests(dstFolder, bookName, Items(files)), returnCode) == run)
  {
    var before := Requests(dstFolder, bookName, Done(files, i, j));
    var after := Requests(dstFolder, bookName, Done(files, i, j + 1));
    DoneSnoc(dstFolder, bookName, files, i, j);
    CutRunSnoc(before, FragmentCrop(dstFolder, bookName, FileItems(files[i])[j]), returnCode);
    if CutRun(after, returnCode).error.Some? {
      RequestsAround(dstFolder, bookName, files, i, j);
      CutRunStops(after, Requests(dstFolder, bookName, FileItems(files[i])[j + 1..] + Items(files[i + 1..])), returnCode);
    }
  }

  /** A file whose fragments are all handled is the next file's start. */
  lemma DoneFile(files: seq<Entry<Alignment>>, i: nat)
    requires i < |files|
    ensures Done(files, i, |files[i].content|) == Items(files[..i + 1])
  {
    var f := FileItems(files[i]);
    assert f[..|files[i].content|] == f;
    FlatMapSnoc(FileItems, files[..i], files[i]);
    assert files[..i + 1] == files[..i] + [files[i]];
  }

  /**
   * The planning loop of `cut_audio_fragments` (lines 211-223) over the
   * `.json` files of the folder, with `ffmpeg` exiting with `returnCode(r)` for
   * the crop `r`: it issues exactly the crops of the run, and raises exactly
   * the run's exception.
   */
  method CutAudioFragments(listing: seq<Entry<Alignment>>, dstFolder: string, bookName: string,
                           returnCode: CropRequest -> int)
    returns (crops: seq<CropRequest>, result: Result<(), CropError>)
    ensures var run := CutRun(Requests(dstFolder, bookName, Items(ListFilesWithExtension(listing, "json"))), returnCode);
      && crops == run.crops
      && (result.Ok? <==> run.error.None?)
      && (result.Err? ==> run.error == Some(result.error))
  {
    var jsonFiles := ListFilesWithExtension(listing, "json");
    crops := [];
    var i := 0;
    while i < |jsonFiles|
      invariant 0 <= i <= |jsonFiles|
      invariant CutRun(Requests(dstFolder, bookName, Items(jsonFiles[..i])), returnCode) == Run(crops, None)
    {
      var jsonFile := jsonFiles[i];
      var data := jsonFile.content;
      var j := 0;
      assert Done(jsonFiles, i, 0) == Items(jsonFiles[..i]) by {
        assert FileItems(jsonFile)[..0] == [];
      }
      while j < |data|
        invariant 0 <= j <= |data|
        invariant CutRun(Requests(dstFolder, bookName, Done(jsonFiles, i, j)), returnCode) == Run(crops, None)
      {
        var (fragment, fragmentData) := data[j];
        DoneStep(dstFolder, bookName, jsonFiles, i, j, returnCode);
        var request := FragmentCrop(dstFolder, bookName, Item(jsonFile.name, fragment, fragmentData));
        if request.Err? {
          return crops, Err(request.error);
        }
        crops := crops + [request.value];
        result := CropAudio(request.value, returnCode(request.value));
        if result.Err? {
          return;
        }
        j := j + 1;
      }
      DoneFile(jsonFiles, i);
      i := i + 1;
    }
    assert jsonFiles[..i] == jsonFiles;
    result := Ok(());
  }

  /** A request whose crop is issued and succeeds. */
  predicate Completes(request: Result<CropRequest, CropError>, returnCode: CropRequest -> int) {
    request.Ok? && returnCode(request.value) == 0
  }

  /** A run raises nothing exactly when every record is complete, every time parses and every crop succeeds. */
  lemma {:induction false} CutRunSucceeds(requests: seq<Result<CropRequest, CropError>>, returnCode: CropRequest -> int)
    ensures CutRun(requests, returnCode).error.None? <==> forall k :: 0 <= k < |requests| ==> Completes(requests[k], returnCode)
  {
    if |requests| > 0 {
      var init := requests[..|requests| - 1];
      CutRunSucceeds(init, returnCode);
      assert forall k :: 0 <= k < |init| ==> init[k] == requests[k];
    }
  }

  /** A run that raised nothing issued, in order, one crop per fragment: the one that fragment asks for. */
  lemma {:induction false} CutRunCrops(requests: seq<Result<CropRequest, CropError>>, returnCode: CropRequest -> int)
    requires CutRun(requests, returnCode).error.None?
    ensures var crops := CutRun(requests, returnCode).crops;
      && |crops| == |requests|
      && forall k :: 0 <= k < |requests| ==> requests[k] == Ok(crops[k])
  {
    if |requests| > 0 {
      var init := requests[..|requests| - 1];
      CutRunCrops(init, returnCode);
      var crops := CutRun(requests, returnCode).crops;
      var prev := CutRun(init, returnCode).crops;
      assert forall k :: 0 <= k < |init| ==> init[k] == requests[k] && crops[k] == prev[k];
    }
  }

  /**
   * A run that raised stopped at its first failing request n: the requests
   * before it ran without error, and the run is theirs plus the attempt on n.
   */
  lemma {:induction false} CutRunFirstError(requests: seq<Result<CropRequest, CropError>>, returnCode: CropRequest -> int)
    returns (n: nat)
    requires CutRun(requests, returnCode).error.Some?
    ensures n < |requests|
    ensures CutRun(requests[..n], returnCode).error.None?
    ensures !Completes(requests[n], returnCode)
    ensures CutRun(requests, returnCode) == Attempt(CutRun(requests[..n], returnCode).crops, requests[n], returnCode)
  {
    var init := requests[..|requests| - 1];
    if CutRun(init, returnCode).error.Some? {
      n := CutRunFirstError(init, returnCode);
      assert init[..n] == requests[..n] && init[n] == requests[n];
    } else {
      n := |init|;
      assert requests[..n] == init;
    }
  }

  /**
   * In a run that raised nothing, the k-th crop writes the clip of the k-th
   * fragment, from the audio its record names, between the times it gives.
   */
  lemma CutRunCropAt(dstFolder: string, bookName: string, items: seq<Item>, returnCode: CropRequest -> int, k: nat)
    requires CutRun(Requests(dstFolder, bookName, items), returnCode).error.None?
    requires k < |items|
    ensures var crops := CutRun(Requests(dstFolder, bookName, items), returnCode).crops;
      var record := items[k].record;
      && k < |crops|
      && "begin_time" in record && "end_time" in record && "audio_file" in record
      && crops[k].src == record["audio_file"]
      && crops[k].dst == ClipPath(dstFolder, bookName, items[k].jsonName, items[k].fragment)
      && Ok(crops[k].begin) == FragmentTimeToMillis(record["begin_time"])
      && Ok(crops[k].end) == FragmentTimeToMillis(record["end_time"])
  {
    CutRunCrops(Requests(dstFolder, bookName, items), returnCode);
  }

  /** Every clip name starts with the book name, underscores removed, or with `_` when that is empty. */
  lemma ClipNameStart(bookName: string, part: string, fragment: string)
    ensures var name := GenerateAudioCutFilename(bookName, part, fragment);
      var book := RemoveAll(bookName, '_');
      |name| > 0 && name[0] == (if book == [] then '_' else book[0])
  {
    var book := RemoveAll(bookName, '_');
    var name := GenerateAudioCutFilename(bookName, part, fragment);
    assert name == book + ("_" + part + "_" + fragment + ".mp3");
  }

  /**
   * Two fragments of the same alignment file never share a clip unless they
   * share the id, whatever the folder, the book and the ids' characters.
   */
  lemma ClipPathInjective(dstFolder: string, bookName: string, jsonName: string, fragment1: string, fragment2: string)
    requires ClipPath(dstFolder, bookName, jsonName, fragment1) == ClipPath(dstFolder, bookName, jsonName, fragment2)
    ensures fragment1 == fragment2
  {
    var part := JsonPart(jsonName);
    ClipNameStart(bookName, part, fragment1);
    ClipNameStart(bookName, part, fragment2);
    var n1 := GenerateAudioCutFilename(bookName, part, fragment1);
    var n2 := GenerateAudioCutFilename(bookName, part, fragment2);
    PathJoinInjective(dstFolder, n1, n2);
    var pre := RemoveAll(bookName, '_') + "_" + part + "_";
    assert n1 == pre + fragment1 + ".mp3";
    assert n2 == pre + fragment2 + ".mp3";
    assert fragment1 == n1[|pre|..|n1| - 4];
    assert fragment2 == n2[|pre|..|n2| - 4];
  }

  /**
   * Alignment files whose names differ only in the characters the strip
   * removes write to the same clips: "an.json" and "a.json" both give part "a".
   */
  lemma CollidingParts(dstFolder: string, bookName: string, fragment: string)
    ensures ClipPath(dstFolder, bookName, "an.json", fragment) == ClipPath(dstFolder, bookName, "a.json", fragment)
  {
    RStripCharsTail("a", "n.json", JsonChars);
    assert "a" + "n.json" == "an.json";
    RStripCharsTail("a", ".json", JsonChars);
    assert "a" + ".json" == "a.json";
  }
}
