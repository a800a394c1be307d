/**
 * `FileTypesResolver` (NLPer/nlper/file_io/file_type_resolver.py): picks
 * the reader for a file extension by suffix. The readers themselves are
 * not part of this model; a member stands for the reader it holds.
 */
module FileTypeResolver {
  import opened Wrappers
  import opened Strings

  /** The enumeration's members, one per supported reader. */
  datatype FileType = Txt | Html | Csv | Json

  /** A member's `name`. */
  function Name(ft: FileType): string
  {
    match ft
    case Txt => "txt"
    case Html => "html"
    case Csv => "csv"
    case Json => "json"
  }

  /** Iteration order of the enumeration: declaration order. */
  const Members: seq<FileType> := [Txt, Html, Csv, Json]

  /** The first of `members` whose name ends `extension`, else `UnsupportedFileTypeException`. */
  function FirstMatch(members: seq<FileType>, extension: string): (r: Result<FileType>)
    ensures r.Ok? ==> r.value in members && EndsWith(extension, Name(r.value))
    ensures r.Err? <==> forall ft :: ft in members ==> !EndsWith(extension, Name(ft))
    ensures r.Err? ==> r.error == UnsupportedFileType(extension)
  {
    if members == [] then Err(UnsupportedFileType(extension))
    else if EndsWith(extension, Name(members[0])) then Ok(members[0])
    else FirstMatch(members[1..], extension)
  }

  /** `FileTypesResolver.resolve`. */
  function Resolve(extension: string): Result<FileType>
  {
    FirstMatch(Members, extension)
  }

  /** The names end in four different letters. */
  function LastLetter(ft: FileType): (c: char)
    ensures |Name(ft)| > 0 && Name(ft)[|Name(ft)| - 1] == c
  {
    match ft
    case Txt => 't'
    case Html => 'l'
    case Csv => 'v'
    case Json => 'n'
  }

  /** A string a member's name ends, ends in that member's letter. */
  lemma EndsWithLastLetter(extension: string, ft: FileType)
    requires EndsWith(extension, Name(ft))
    ensures |extension| > 0 && extension[|extension| - 1] == LastLetter(ft)
  {
    var n := Name(ft);
    assert extension[|extension| - |n|..][|n| - 1] == extension[|extension| - 1];
  }

  /** No member's name is a suffix of another's. */
  lemma NamesSuffixFree(a: FileType, b: FileType)
    requires a != b
    ensures !EndsWith(Name(a), Name(b))
  {
    if EndsWith(Name(a), Name(b)) {
      EndsWithLastLetter(Name(a), b);
    }
  }

  /** Two member names that both end a string are the same name. */
  lemma AtMostOneMatch(extension: string, a: FileType, b: FileType)
    requires EndsWith(extension, Name(a)) && EndsWith(extension, Name(b))
    ensures a == b
  {
    EndsWithLastLetter(extension, a);
    EndsWithLastLetter(extension, b);
  }

  /**
   * `resolve` answers a member exactly when that member's name ends the
   * extension, so the order of the members does not matter; when no name
   * ends it, it raises `UnsupportedFileTypeException` with the extension.
   */
  lemma ResolveBySuffix(extension: string, ft: FileType)
    ensures Resolve(extension) == Ok(ft) <==> EndsWith(extension, Name(ft))
    ensures Resolve(extension).Err? <==> forall m: FileType :: !EndsWith(extension, Name(m))
    ensures Resolve(extension).Err? ==> Resolve(extension).error == UnsupportedFileType(extension)
  {
    var r := Resolve(extension);
    if EndsWith(extension, Name(ft)) {
      assert ft in Members;
      AtMostOneMatch(extension, r.value, ft);
    }
    if r.Err? {
      forall m: FileType ensures !EndsWith(extension, Name(m)) {
        assert Members == [Txt, Html, Csv, Json];
        match m
        case Txt => assert Members[0] == m;
        case Html => assert Members[1] == m;
        case Csv => assert Members[2] == m;
        case Json => assert Members[3] == m;
      }
    }
  }

  /** A string that does not end in a member's letter does not end in its name. */
  lemma NotEndsWithByLetter(s: string, ft: FileType)
    requires |s| > 0 && s[|s| - 1] != LastLetter(ft)
    ensures !EndsWith(s, Name(ft))
  {
    var n := Name(ft);
    if |n| <= |s| {
      assert s[|s| - |n|..][|n| - 1] == s[|s| - 1];
    }
  }

  /** `jsonl` has no reader: only `html` ends in its last letter, and `jsonl` does not end in `html`. */
  lemma JsonLinesUnsupported()
    ensures Resolve("jsonl") == Err(UnsupportedFileType("jsonl"))
  {
    var j := "jsonl";
    forall m: FileType ensures !EndsWith(j, Name(m)) {
      if m == Html {
        assert j[1..][0] != Name(m)[0];
      } else {
        NotEndsWithByLetter(j, m);
      }
    }
    ResolveBySuffix(j, Html);
  }

  /** `xhtml` goes to the HTML reader. */
  lemma XhtmlIsHtml()
    ensures Resolve("xhtml") == Ok(Html)
  {
    var x := "xhtml";
    assert EndsWith(x, "html") by {
      assert x[1..] == "html";
    }
    ResolveBySuffix(x, Html);
  }
}
