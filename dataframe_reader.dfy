/**
 * `FileReader` (NLPer/nlper/file_io/dataframe_reader.py): keeps the files
 * with an allowed extension, names each after its base name, and reads
 * each as JSON lines. The directory listing (`glob`), the file contents
 * and JSON decoding are parameters.
 */
module DataFrameReader {
  import opened Wrappers
  import opened Strings
  import opened Tables
  import opened Dicts

  /** The default `allowed_extensions`. */
  const DefaultExtensions: seq<string> := [".jsonl", ".jl"]

  /** `path.endswith(extensions)` for a tuple of extensions. */
  predicate EndsWithAny(path: string, extensions: seq<string>)
  {
    exists e :: e in extensions && EndsWith(path, e)
  }

  /** `_get_files` on what `glob` listed: the paths with an allowed extension, in their order. */
  function AllowedFiles(files: seq<string>, extensions: seq<string>): (r: seq<string>)
    ensures |r| <= |files|
    ensures forall f :: f in r <==> f in files && EndsWithAny(f, extensions)
  {
    if files == [] then []
    else if EndsWithAny(files[0], extensions) then [files[0]] + AllowedFiles(files[1..], extensions)
    else AllowedFiles(files[1..], extensions)
  }

  /** Filtering keeps order: it distributes over concatenation. */
  lemma {:induction false} AllowedFilesAppend(a: seq<string>, b: seq<string>, extensions: seq<string>)
    ensures AllowedFiles(a + b, extensions) == AllowedFiles(a, extensions) + AllowedFiles(b, extensions)
    decreases |a|
  {
    if a == [] {
      assert a + b == b;
    } else {
      assert (a + b)[1..] == a[1..] + b;
      AllowedFilesAppend(a[1..], b, extensions);
    }
  }

  /** The index just past the last `/`, or 0. */
  function BaseStart(path: string): (i: nat)
    ensures i <= |path|
    ensures '/' !in path[i..]
    ensures i > 0 ==> path[i - 1] == '/'
  {
    if path == [] then 0
    else if path[|path| - 1] == '/' then |path|
    else
      var i := BaseStart(path[..|path| - 1]);
      assert path[i..] == path[..|path| - 1][i..] + [path[|path| - 1]];
      i
  }

  /** `os.path.basename`: what follows the last `/`. */
  function Basename(path: string): (b: string)
    ensures '/' !in b && EndsWith(path, b)
    ensures |b| < |path| ==> path[|path| - |b| - 1] == '/'
  {
    path[BaseStart(path)..]
  }

  /** `s.split('.')[0]`: what precedes the first `.`, or all of `s`. */
  function BeforeFirstDot(s: string): (r: string)
    ensures '.' !in r && r <= s
    ensures |r| < |s| ==> s[|r|] == '.'
  {
    if s == [] || s[0] == '.' then []
    else [s[0]] + BeforeFirstDot(s[1..])
  }

  /**
   * `_get_file_names` for one path: the base name up to its first `.`; it
   * holds no `.` and no `/` and starts the base name.
   */
  function FileName(path: string): (name: string)
    ensures '.' !in name && '/' !in name
    ensures name <= Basename(path)
    ensures |name| < |Basename(path)| ==> Basename(path)[|name|] == '.'
  {
    var b := Basename(path);
    var r := BeforeFirstDot(b);
    assert forall c :: c in r ==> c in b;
    r
  }

  /** `_get_file_names`: one name per path, in the paths' order. */
  function FileNames(paths: seq<string>): (names: seq<string>)
    ensures |names| == |paths| && forall i :: 0 <= i < |paths| ==> names[i] == FileName(paths[i])
  {
    seq(|paths|, i requires 0 <= i < |paths| => FileName(paths[i]))
  }

  /** The characters `line.rstrip('\n|\r')` removes. */
  const LineEnd: set<char> := {'\n', '|', '\r'}

  /** `line.rstrip(chars)`: the longest prefix not ending in one of `chars`. */
  function RStrip(line: string, chars: set<char>): (r: string)
    ensures r <= line
    ensures forall i :: |r| <= i < |line| ==> line[i] in chars
    ensures r == [] || r[|r| - 1] !in chars
  {
    if line == [] || line[|line| - 1] !in chars then line
    else RStrip(line[..|line| - 1], chars)
  }

  /** Stripping a second time removes nothing more. */
  lemma RStripIdempotent(line: string, chars: set<char>)
    ensures RStrip(RStrip(line, chars), chars) == RStrip(line, chars)
  {
  }

  /** A line that does not end in one of the characters is left as it is. */
  lemma RStripKeeps(line: string, chars: set<char>)
    requires line == [] || line[|line| - 1] !in chars
    ensures RStrip(line, chars) == line
  {
  }

  /** The parsed lines of a file, or the first decoding error. */
  function ParsedLines<J>(lines: seq<string>, parse: string -> Result<J>): (r: Result<seq<J>>)
    ensures r.Ok? <==> forall i :: 0 <= i < |lines| ==> parse(RStrip(lines[i], LineEnd)).Ok?
    ensures r.Ok? ==> |r.value| == |lines|
    ensures r.Ok? ==> forall i :: 0 <= i < |lines| ==> Ok(r.value[i]) == parse(RStrip(lines[i], LineEnd))
    ensures r.Err? ==> exists i :: 0 <= i < |lines| && parse(RStrip(lines[i], LineEnd)) == Err(r.error)
  {
    if lines == [] then Ok([])
    else
      var first :- parse(RStrip(lines[0], LineEnd));
      var rest :- ParsedLines(lines[1..], parse);
      assert forall i :: 1 <= i < |lines| ==> lines[i] == lines[1..][i - 1];
      Ok([first] + rest)
  }

  /**
   * `_read_json_lines_file` over the lines of a file (each with its line
   * ending); `parse` stands for `json.loads`.
   */
  method ReadJsonLinesFile<J>(lines: seq<string>, parse: string -> Result<J>) returns (r: Result<seq<J>>)
    ensures r == ParsedLines(lines, parse)
  {
    var listOfLines: seq<J> := [];
    assert lines[0..] == lines;
    ThenStart(ParsedLines(lines, parse));
    for i := 0 to |lines|
      invariant ParsedLines(lines, parse) == Then(listOfLines, ParsedLines(lines[i..], parse))
    {
      assert lines[i..][0] == lines[i] && lines[i..][1..] == lines[i + 1..];
      var record := parse(RStrip(lines[i], LineEnd));
      if record.Err? {
        return Err(record.error);
      }
      ThenStep(listOfLines, record.value, ParsedLines(lines[i + 1..], parse));
      listOfLines := listOfLines + [record.value];
    }
    assert lines[|lines|..] == [];
    assert listOfLines + [] == listOfLines;
    return Ok(listOfLines);
  }

  /** The records read so far, followed by what the remaining lines give. */
  function Then<J>(done: seq<J>, rest: Result<seq<J>>): Result<seq<J>>
  {
    if rest.Ok? then Ok(done + rest.value) else rest
  }

  lemma ThenStart<J>(rest: Result<seq<J>>)
    ensures Then([], rest) == rest
  {
    if rest.Ok? {
      assert [] + rest.value == rest.value;
    }
  }

  lemma ThenStep<J>(done: seq<J>, x: J, rest: Result<seq<J>>)
    ensures Then(done, if rest.Ok? then Ok([x] + rest.value) else rest) == Then(done + [x], rest)
  {
    if rest.Ok? {
      assert done + ([x] + rest.value) == done + [x] + rest.value;
    }
  }

  /** The files read in order, stopping at the first that cannot be read. */
  function ReadFiles<J>(paths: seq<string>, contents: string -> seq<string>, parse: string -> Result<J>)
    : (r: Result<seq<seq<J>>>)
    ensures r.Ok? <==> forall i :: 0 <= i < |paths| ==> ParsedLines(contents(paths[i]), parse).Ok?
    ensures r.Ok? ==> |r.value| == |paths|
    ensures r.Ok? ==> forall i :: 0 <= i < |paths| ==> Ok(r.value[i]) == ParsedLines(contents(paths[i]), parse)
  {
    if paths == [] then Ok([])
    else
      var first :- ParsedLines(contents(paths[0]), parse);
      var rest :- ReadFiles(paths[1..], contents, parse);
      assert forall i :: 1 <= i < |paths| ==> paths[i] == paths[1..][i - 1];
      Ok([first] + rest)
  }

  /**
   * `read_json_lines_files`: `dict(zip(file_names, ...))`, each file's
   * records under its name; `contents` gives the lines of a file.
   */
  function ReadJsonLinesFiles<J>(paths: seq<string>, contents: string -> seq<string>, parse: string -> Result<J>)
    : Result<Dict<seq<J>>>
  {
    var read :- ReadFiles(paths, contents, parse);
    Ok(FromPairs(FileNames(paths), read))
  }

  /**
   * When every file can be read, the dictionary has exactly the file
   * names as keys, each once, and a name whose file comes last among the
   * files of that name holds that file's records.
   */
  lemma ReadJsonLinesFilesByName<J>(paths: seq<string>, contents: string -> seq<string>, parse: string -> Result<J>)
    ensures ReadJsonLinesFiles(paths, contents, parse).Ok? <==>
      forall i :: 0 <= i < |paths| ==> ParsedLines(contents(paths[i]), parse).Ok?
    ensures ReadJsonLinesFiles(paths, contents, parse).Ok? ==>
      var d := ReadJsonLinesFiles(paths, contents, parse).value;
      Distinct(Keys(d)) && (forall k :: k in Keys(d) <==> k in FileNames(paths)) &&
      forall i :: 0 <= i < |paths| && FileName(paths[i]) !in FileNames(paths)[i + 1..] ==>
        Lookup(d, FileName(paths[i])) == Some(ParsedLines(contents(paths[i]), parse).value)
  {
    var read := ReadFiles(paths, contents, parse);
    if read.Ok? {
      FromPairsLastWins(FileNames(paths), read.value);
    }
  }

  /** The reader: the listing is filtered and named once, when it is made. */
  class FileReader {
    const allowedExtensions: seq<string>
    const filePaths: seq<string>
    const fileNames: seq<string>

    /** The names are those of the paths, one each, as `__init__` computes them. */
    predicate Valid()
    {
      fileNames == FileNames(filePaths)
    }

    /** `listed` is what `glob` returns for the configured folder. */
    constructor(listed: seq<string>, allowedExtensions: seq<string>)
      ensures this.allowedExtensions == allowedExtensions
      ensures filePaths == AllowedFiles(listed, allowedExtensions)
      ensures fileNames == FileNames(filePaths) && Valid()
    {
      this.allowedExtensions := allowedExtensions;
      filePaths := AllowedFiles(listed, allowedExtensions);
      fileNames := FileNames(AllowedFiles(listed, allowedExtensions));
    }

    /** `read_json_lines_files` over the reader's files. */
    method ReadJsonLinesFilesOf<J>(contents: string -> seq<string>, parse: string -> Result<J>)
      returns (r: Result<Dict<seq<J>>>)
      requires Valid()
      ensures r == ReadJsonLinesFiles(filePaths, contents, parse)
      ensures r.Ok? ==> forall k :: k in Keys(r.value) <==> k in fileNames
    {
      ReadJsonLinesFilesByName(filePaths, contents, parse);
      r := ReadJsonLinesFiles(filePaths, contents, parse);
    }
  }

  lemma {:induction false} BaseStartAfterSlash(dir: string, rest: string)
    requires dir != [] && dir[|dir| - 1] == '/' && '/' !in rest
    ensures BaseStart(dir + rest) == |dir|
    decreases |rest|
  {
    if rest == [] {
      assert dir + rest == dir;
    } else {
      var n := |rest| - 1;
      assert (dir + rest)[..|dir + rest| - 1] == dir + rest[..n];
      assert rest[n] in rest;
      BaseStartAfterSlash(dir, rest[..n]);
    }
  }

  lemma {:induction false} BeforeFirstDotOf(stem: string, ext: string)
    requires '.' !in stem && ext != [] && ext[0] == '.'
    ensures BeforeFirstDot(stem + ext) == stem
    decreases |stem|
  {
    if stem == [] {
      assert (stem + ext)[0] == '.';
    } else {
      assert (stem + ext)[1..] == stem[1..] + ext;
      BeforeFirstDotOf(stem[1..], ext);
    }
  }

  /**
   * A file in a folder is named by its stem: what precedes the first `.`
   * of its base name, whatever the extension.
   */
  lemma FileNameOf(dir: string, stem: string, ext: string)
    requires dir != [] && dir[|dir| - 1] == '/'
    requires '/' !in stem && '.' !in stem && '/' !in ext && ext != [] && ext[0] == '.'
    ensures FileName(dir + stem + ext) == stem
  {
    assert dir + stem + ext == dir + (stem + ext);
    assert '/' !in stem + ext;
    BaseStartAfterSlash(dir, stem + ext);
    assert Basename(dir + stem + ext) == stem + ext;
    BeforeFirstDotOf(stem, ext);
  }

  /**
   * Two files of the same stem in the same folder but with the two default
   * extensions, such as `data/BBC.jsonl` and `data/BBC.jl`, share one key.
   */
  lemma SameNameForBothExtensions(dir: string, stem: string)
    requires dir != [] && dir[|dir| - 1] == '/' && '/' !in stem && '.' !in stem
    ensures FileName(dir + stem + ".jsonl") == stem && FileName(dir + stem + ".jl") == stem
  {
    FileNameOf(dir, stem, ".jsonl");
    FileNameOf(dir, stem, ".jl");
  }
}
