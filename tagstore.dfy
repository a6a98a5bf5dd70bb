/** The `.rtag` tag store: a text file holding one tag per line, read with a
    line scanner and rewritten whole by every add and remove. */
module TagStore {
  import opened Text

  /** A tag as it can come back from the file: non-empty, trimmed, one line. */
  predicate IsTag(t: string) {
    t != "" && IsTrimmed(t) && '\n' !in t
  }

  predicate NoDuplicates(tags: seq<string>) {
    forall i, j :: 0 <= i < j < |tags| ==> tags[i] != tags[j]
  }

  /** The scanner loop of readTags: trim every line and keep the non-blank
      ones, in line order. */
  function Keep(lines: seq<string>): (r: seq<string>)
    ensures |r| <= |lines|
    ensures forall x :: x in r <==> x != "" && exists j :: 0 <= j < |lines| && Trim(lines[j]) == x
  {
    if lines == [] then []
    else
      var t := Trim(lines[0]);
      (if t != "" then [t] else []) + Keep(lines[1..])
  }

  /** Tags scanned from newline-free lines are well-formed tags. */
  lemma {:induction false} KeepTags(lines: seq<string>)
    requires forall j :: 0 <= j < |lines| ==> '\n' !in lines[j]
    ensures forall j :: 0 <= j < |Keep(lines)| ==> IsTag(Keep(lines)[j])
  {
    if lines != [] {
      KeepTags(lines[1..]);
    }
  }

  /** One step of the scan: the first line contributes its trimmed text
      when that is not blank. */
  lemma KeepStep(lines: seq<string>, i: nat)
    requires i < |lines|
    ensures Trim(lines[i]) != "" ==> Keep(lines[i..]) == [Trim(lines[i])] + Keep(lines[i + 1..])
    ensures Trim(lines[i]) == "" ==> Keep(lines[i..]) == Keep(lines[i + 1..])
  {
    assert lines[i..][1..] == lines[i + 1..];
  }

  /** The scanner loop of readTags over the lines of the file. */
  method ScanTags(lines: seq<string>) returns (tags: seq<string>)
    ensures tags == Keep(lines)
  {
    tags := [];
    for i := 0 to |lines|
      invariant tags + Keep(lines[i..]) == Keep(lines)
    {
      var line := Trim(lines[i]);
      KeepStep(lines, i);
      if line != "" {
        Assoc(tags, [line], Keep(lines[i + 1..]));
        tags := tags + [line];
      }
    }
    assert lines[|lines|..] == [];
    assert tags + [] == tags;
  }

  /** The tags held by a file's text. */
  function ParseTags(text: string): (r: seq<string>)
    ensures |r| <= |Lines(text)|
    ensures forall x :: x in r <==> x != "" && exists j :: 0 <= j < |Lines(text)| && Trim(Lines(text)[j]) == x
  {
    Keep(Lines(text))
  }

  /** Every tag read from a file is non-empty, trimmed and a single line. */
  lemma ParsedAreTags(text: string)
    ensures forall j :: 0 <= j < |ParseTags(text)| ==> IsTag(ParseTags(text)[j])
  {
    KeepTags(Lines(text));
  }

  /** What writeTags puts in the file: each tag followed by a newline. */
  function Serialize(tags: seq<string>): (r: string)
    ensures r == "" <==> tags == []
    ensures r != "" ==> r[|r| - 1] == '\n'
    ensures tags != [] ==> |tags[0]| < |r| && r[..|tags[0]|] == tags[0] && r[|tags[0]|] == '\n'
  {
    if tags == [] then "" else tags[0] + "\n" + Serialize(tags[1..])
  }

  /** Reading back what was written gives the same tags, provided every tag
      is non-empty, trimmed and free of newlines. */
  lemma {:induction false} ParseSerialize(tags: seq<string>)
    requires forall j :: 0 <= j < |tags| ==> IsTag(tags[j])
    ensures ParseTags(Serialize(tags)) == tags
  {
    if tags != [] {
      var t := tags[0];
      LinesCons(t, Serialize(tags[1..]));
      TrimTrimmed(t);
      ParseSerialize(tags[1..]);
      var lines := Lines(Serialize(tags));
      assert lines == [t] + Lines(Serialize(tags[1..]));
      assert lines[1..] == Lines(Serialize(tags[1..]));
    }
  }

  /** Writing back what was read, then reading again, gives the same tags:
      a rewrite only drops blank lines and surrounding white space. */
  lemma ReadWriteRead(text: string)
    ensures ParseTags(Serialize(ParseTags(text))) == ParseTags(text)
    ensures Serialize(ParseTags(Serialize(ParseTags(text)))) == Serialize(ParseTags(text))
  {
    ParsedAreTags(text);
    ParseSerialize(ParseTags(text));
  }

  /** removeTag's filter: every occurrence of t dropped, the rest kept in order. */
  function Without(tags: seq<string>, t: string): (r: seq<string>)
    ensures forall x :: x in r <==> x in tags && x != t
    ensures |r| <= |tags|
  {
    if tags == [] then []
    else (if tags[0] != t then [tags[0]] else []) + Without(tags[1..], t)
  }

  lemma WithoutStep(tags: seq<string>, i: nat, t: string)
    requires i < |tags|
    ensures tags[i] != t ==> Without(tags[i..], t) == [tags[i]] + Without(tags[i + 1..], t)
    ensures tags[i] == t ==> Without(tags[i..], t) == Without(tags[i + 1..], t)
  {
    assert tags[i..][1..] == tags[i + 1..];
  }

  /** Filtering keeps relative order: it distributes over concatenation. */
  lemma {:induction false} WithoutAppend(a: seq<string>, b: seq<string>, t: string)
    ensures Without(a + b, t) == Without(a, t) + Without(b, t)
  {
    if a == [] {
      assert a + b == b;
    } else {
      assert (a + b)[1..] == a[1..] + b;
      WithoutAppend(a[1..], b, t);
      var head := if a[0] != t then [a[0]] else [];
      assert Without(a + b, t) == head + Without(a[1..] + b, t);
      Assoc(head, Without(a[1..], t), Without(b, t));
    }
  }

  lemma {:induction false} WithoutKeepsTags(tags: seq<string>, t: string)
    requires forall j :: 0 <= j < |tags| ==> IsTag(tags[j])
    ensures forall j :: 0 <= j < |Without(tags, t)| ==> IsTag(Without(tags, t)[j])
  {
    if tags != [] {
      WithoutKeepsTags(tags[1..], t);
    }
  }

  /** Every other tag keeps its number of occurrences; t has none left. */
  lemma {:induction false} WithoutCounts(tags: seq<string>, t: string, x: string)
    ensures multiset(Without(tags, t))[x] == if x == t then 0 else multiset(tags)[x]
  {
    if tags != [] {
      assert tags == [tags[0]] + tags[1..];
      WithoutCounts(tags[1..], t, x);
    }
  }

  /** Removing what is not there changes nothing. */
  lemma {:induction false} WithoutAbsent(tags: seq<string>, t: string)
    requires t !in tags
    ensures Without(tags, t) == tags
  {
    if tags != [] {
      WithoutAbsent(tags[1..], t);
    }
  }

  /** Removing keeps a duplicate-free list duplicate-free. */
  lemma {:induction false} WithoutNoDuplicates(tags: seq<string>, t: string)
    requires NoDuplicates(tags)
    ensures NoDuplicates(Without(tags, t))
  {
    if tags != [] {
      WithoutNoDuplicates(tags[1..], t);
      assert tags[0] !in tags[1..];
    }
  }

  /** The file as the filesystem holds it. Unreadable stands for every open
      error other than "does not exist" and for scanner errors. */
  datatype FileState = Missing | Unreadable | Present(text: string)

  datatype ReadResult = Tags(tags: seq<string>) | ReadFailed

  /** readTags: a missing file reads as no tags, any other failure is an
      error, and a readable file gives its tags in line order. */
  function ReadTagsOf(f: FileState): (r: ReadResult)
    ensures f.Missing? ==> r == Tags([])
    ensures r.ReadFailed? <==> f.Unreadable?
    ensures f.Present? ==> r == Tags(ParseTags(f.text))
  {
    match f
    case Missing => Tags([])
    case Unreadable => ReadFailed
    case Present(text) => Tags(ParseTags(text))
  }

  /** Whatever a file holds, the tags read from it are well-formed. */
  lemma ReadAreTags(f: FileState)
    ensures ReadTagsOf(f).Tags? ==> forall j :: 0 <= j < |ReadTagsOf(f).tags| ==> IsTag(ReadTagsOf(f).tags[j])
  {
    if f.Present? {
      ParsedAreTags(f.text);
    }
  }

  /** The result of an add or a remove. */
  datatype Outcome = Ok | Duplicate | NotFound | ReadError | WriteError

  /** addTag on the file f, where writable says whether the file can be
      (re)created: the outcome and the file afterwards. */
  function AddEffect(f: FileState, writable: bool, tag: string): (res: (Outcome, FileState))
    ensures res.0 == ReadError <==> f.Unreadable?
    ensures res.0 == Duplicate <==> ReadTagsOf(f).Tags? && tag in ReadTagsOf(f).tags
    ensures res.0 == WriteError <==> ReadTagsOf(f).Tags? && tag !in ReadTagsOf(f).tags && !writable
    ensures res.0 != NotFound
    ensures res.0 != Ok ==> res.1 == f
  {
    match ReadTagsOf(f)
    case ReadFailed => (ReadError, f)
    case Tags(tags) =>
      if tag in tags then (Duplicate, f)
      else if !writable then (WriteError, f)
      else (Ok, Present(Serialize(tags + [tag])))
  }

  /** A successful add of a well-formed tag appends it at the end, and keeps
      a duplicate-free store duplicate-free. */
  lemma AddAppends(f: FileState, writable: bool, tag: string)
    requires IsTag(tag)
    requires AddEffect(f, writable, tag).0 == Ok
    ensures ReadTagsOf(AddEffect(f, writable, tag).1) == Tags(ReadTagsOf(f).tags + [tag])
    ensures NoDuplicates(ReadTagsOf(f).tags) ==> NoDuplicates(ReadTagsOf(AddEffect(f, writable, tag).1).tags)
  {
    var tags := ReadTagsOf(f).tags;
    ReadAreTags(f);
    ParseSerialize(tags + [tag]);
  }

  /** The store need not hold unique tags: adding " v1" to a store holding
      "v1" passes the duplicate check, and both read back as "v1". */
  lemma UntrimmedAddDuplicates()
    ensures AddEffect(Present("v1\n"), true, " v1").0 == Ok
    ensures ReadTagsOf(AddEffect(Present("v1\n"), true, " v1").1) == Tags(["v1", "v1"])
  {
    AddSpaceV1();
    TwoTags();
  }

  lemma AddSpaceV1()
    ensures AddEffect(Present("v1\n"), true, " v1") == (Ok, Present("v1\n v1\n"))
  {
    OneTag();
    assert " v1" !in ["v1"];
    SerializeTwo();
  }

  lemma SerializeTwo()
    ensures Serialize(["v1", " v1"]) == "v1\n v1\n"
  {
    assert Serialize([" v1"]) == " v1\n";
  }

  /** Nor is a tag with a newline refused: adding "v1\nv2" to a store
      holding "v1" passes the duplicate check, and the file then reads back
      v1, v1, v2. */
  lemma NewlineAddDuplicates()
    ensures AddEffect(Present("v1\n"), true, "v1\nv2").0 == Ok
    ensures ReadTagsOf(AddEffect(Present("v1\n"), true, "v1\nv2").1) == Tags(["v1", "v1", "v2"])
  {
    AddNewlineV1();
    SerializeNewline();
    ReadV1V1V2();
  }

  lemma ReadV1V1V2()
    ensures ReadTagsOf(Present(Serialize(["v1", "v1", "v2"]))) == Tags(["v1", "v1", "v2"])
  {
    var tags := ["v1", "v1", "v2"];
    assert IsTag("v1");
    assert IsTag("v2");
    assert forall j :: 0 <= j < |tags| ==> IsTag(tags[j]);
    ParseSerialize(tags);
  }

  lemma AddNewlineV1()
    ensures AddEffect(Present("v1\n"), true, "v1\nv2") == (Ok, Present(Serialize(["v1", "v1\nv2"])))
  {
    OneTag();
    var tags: seq<string> := ["v1"];
    assert "v1\nv2" !in tags;
    AddAbsent(Present("v1\n"), "v1\nv2");
    assert tags + ["v1\nv2"] == ["v1", "v1\nv2"];
  }

  lemma AddAbsent(f: FileState, tag: string)
    requires ReadTagsOf(f).Tags? && tag !in ReadTagsOf(f).tags
    ensures AddEffect(f, true, tag) == (Ok, Present(Serialize(ReadTagsOf(f).tags + [tag])))
  {
  }

  /** The tag with a newline is written as two lines. */
  lemma SerializeNewline()
    ensures Serialize(["v1", "v1\nv2"]) == Serialize(["v1", "v1", "v2"])
  {
    assert Serialize(["v1\nv2"]) == "v1\nv2\n";
    assert Serialize(["v2"]) == "v2\n";
    assert Serialize(["v1", "v2"]) == "v1\nv2\n";
  }

  lemma OneTag()
    ensures ReadTagsOf(Present("v1\n")) == Tags(["v1"])
  {
    assert IsTag("v1");
    assert Serialize(["v1"]) == "v1\n";
    ParseSerialize(["v1"]);
  }

  lemma TwoTags()
    ensures ParseTags("v1\n v1\n") == ["v1", "v1"]
  {
    TwoLines();
    SpaceV1();
    TrimTrimmed("v1");
    assert Keep(["v1", " v1"]) == ["v1", "v1"];
  }

  lemma TwoLines()
    ensures Lines("v1\n v1\n") == ["v1", " v1"]
  {
    assert "v1\n v1\n" == "v1" + "\n" + " v1\n";
    assert " v1\n" == " v1" + "\n" + "";
    LinesCons(" v1", "");
    LinesCons("v1", " v1\n");
  }

  lemma SpaceV1()
    ensures Trim(" v1") == "v1"
  {
    assert SkipSpace(" v1", 1) == 1;
    assert SkipSpace(" v1", 0) == 1;
    assert SkipSpaceBack(" v1", 1, 3) == 3;
  }

  /** removeTag on the file f: the outcome and the file afterwards. */
  function RemoveEffect(f: FileState, writable: bool, tag: string): (res: (Outcome, FileState))
    ensures res.0 == ReadError <==> f.Unreadable?
    ensures res.0 == NotFound <==> ReadTagsOf(f).Tags? && tag !in ReadTagsOf(f).tags
    ensures res.0 == WriteError <==> ReadTagsOf(f).Tags? && tag in ReadTagsOf(f).tags && !writable
    ensures res.0 != Duplicate
    ensures res.0 != Ok ==> res.1 == f
  {
    match ReadTagsOf(f)
    case ReadFailed => (ReadError, f)
    case Tags(tags) =>
      if tag !in tags then (NotFound, f)
      else if !writable then (WriteError, f)
      else (Ok, Present(Serialize(Without(tags, tag))))
  }

  /** A successful remove leaves exactly the other tags, in their order, and
      keeps a duplicate-free store duplicate-free. */
  lemma RemoveFilters(f: FileState, writable: bool, tag: string)
    requires RemoveEffect(f, writable, tag).0 == Ok
    ensures ReadTagsOf(RemoveEffect(f, writable, tag).1) == Tags(Without(ReadTagsOf(f).tags, tag))
    ensures tag !in ReadTagsOf(RemoveEffect(f, writable, tag).1).tags
    ensures NoDuplicates(ReadTagsOf(f).tags) ==> NoDuplicates(ReadTagsOf(RemoveEffect(f, writable, tag).1).tags)
  {
    var tags := ReadTagsOf(f).tags;
    ReadAreTags(f);
    WithoutKeepsTags(tags, tag);
    ParseSerialize(Without(tags, tag));
    if NoDuplicates(tags) {
      WithoutNoDuplicates(tags, tag);
    }
  }

  /** The `.rtag` file of the working directory. */
  class Store {
    var file: FileState
    /** Whether os.Create on the store path succeeds. */
    const writable: bool

    constructor (file: FileState, writable: bool)
      ensures this.file == file && this.writable == writable
    {
      this.file := file;
      this.writable := writable;
    }

    /** readTags: the scanner loop over the file's lines. */
    method ReadTags() returns (r: ReadResult)
      ensures r == ReadTagsOf(file)
    {
      match file
      case Missing =>
        return Tags([]);
      case Unreadable =>
        return ReadFailed;
      case Present(text) =>
        var tags := ScanTags(Lines(text));
        return Tags(tags);
    }

    /** writeTags: recreate the file and print each tag on its own line. */
    method WriteTags(tags: seq<string>) returns (ok: bool)
      modifies this
      ensures ok == writable
      ensures file == if ok then Present(Serialize(tags)) else old(file)
    {
      if !writable {
        return false;
      }
      var out := "";
      for i := 0 to |tags|
        invariant out + Serialize(tags[i..]) == Serialize(tags)
      {
        assert tags[i..][1..] == tags[i + 1..];
        out := out + tags[i] + "\n";
      }
      file := Present(out);
      return true;
    }

    /** addTag: read, refuse a tag already present, else append and rewrite. */
    method AddTag(tag: string) returns (r: Outcome)
      modifies this
      ensures (r, file) == AddEffect(old(file), writable, tag)
    {
      var read := ReadTags();
      if read.ReadFailed? {
        return ReadError;
      }
      var tags := read.tags;
      for i := 0 to |tags|
        invariant tag !in tags[..i]
      {
        if tags[i] == tag {
          return Duplicate;
        }
      }
      assert tags[..|tags|] == tags;
      var ok := WriteTags(tags + [tag]);
      r := if ok then Ok else WriteError;
    }

    /** removeTag's loop: the tags other than tag, in order, and whether tag
        was among them. */
    static method FilterTags(tags: seq<string>, tag: string) returns (newTags: seq<string>, found: bool)
      ensures newTags == Without(tags, tag)
      ensures found <==> tag in tags
    {
      newTags := [];
      found := false;
      for i := 0 to |tags|
        invariant newTags + Without(tags[i..], tag) == Without(tags, tag)
        invariant found <==> exists k :: 0 <= k < i && tags[k] == tag
      {
        WithoutStep(tags, i, tag);
        if tags[i] != tag {
          Assoc(newTags, [tags[i]], Without(tags[i + 1..], tag));
          newTags := newTags + [tags[i]];
        } else {
          found := true;
        }
      }
      assert tags[|tags|..] == [];
      assert newTags + [] == newTags;
    }

    /** removeTag: read, filter out every occurrence while noting whether
        there was one, and rewrite only if there was. */
    method RemoveTag(tag: string) returns (r: Outcome)
      modifies this
      ensures (r, file) == RemoveEffect(old(file), writable, tag)
    {
      var read := ReadTags();
      if read.ReadFailed? {
        return ReadError;
      }
      var newTags, found := FilterTags(read.tags, tag);
      if !found {
        return NotFound;
      }
      var ok := WriteTags(newTags);
      r := if ok then Ok else WriteError;
    }
  }
}
