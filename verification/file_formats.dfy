/** File formats chosen from file-name extensions, and the dashboard's list
    of project files. Reading a picked file is a parameter: its content is
    `None` when `readString` fails. Random file ids are parameters too. */
module FileFormats {
  import Text
  import Seqs
  import opened Wrappers

  /** The format the editor parses and serialises with. */
  datatype ParserType = JSON | JSON5 | YAML | UNSUPPORTED

  /** The format the dashboard records for a project file. */
  datatype FileFormat = JSON | JSON5 | YAML | UNSUPPORTED

  /** `PlatformFile.parserType()`: the extension is compared as it is. A
      ".json" file is read as JSON5; nothing maps to plain JSON. */
  function ParserTypeOf(extension: string): (r: ParserType)
    ensures r == ParserType.JSON5 <==> extension == "json"
    ensures r == ParserType.YAML <==> extension == "yaml" || extension == "yml"
    ensures r != ParserType.JSON
  {
    if extension == "json" then ParserType.JSON5
    else if extension == "yaml" || extension == "yml" then ParserType.YAML
    else ParserType.UNSUPPORTED
  }

  /** The dashboard's `when (ext)` on an extension it has already lower-cased. */
  function FormatOf(ext: string): (r: FileFormat)
    ensures r == FileFormat.JSON5 <==> ext == "json"
    ensures r == FileFormat.YAML <==> ext == "yaml" || ext == "yml"
    ensures r != FileFormat.JSON
  {
    if ext == "json" then FileFormat.JSON5
    else if ext == "yaml" || ext == "yml" then FileFormat.YAML
    else FileFormat.UNSUPPORTED
  }

  /** The parser type that has the same name as a file format. */
  function AsParserType(f: FileFormat): ParserType {
    match f
    case JSON => ParserType.JSON
    case JSON5 => ParserType.JSON5
    case YAML => ParserType.YAML
    case UNSUPPORTED => ParserType.UNSUPPORTED
  }

  /** The dashboard and the editor agree on a file's format once the
      extension is lower-cased; lower-casing a second time changes nothing. */
  lemma FormatAgreesWithParserType(ext: string)
    ensures AsParserType(FormatOf(Text.Lowercase(ext))) == ParserTypeOf(Text.Lowercase(ext))
    ensures Text.Lowercase(Text.Lowercase(ext)) == Text.Lowercase(ext)
    ensures FormatOf(Text.Lowercase(Text.Lowercase(ext))) == FormatOf(Text.Lowercase(ext))
  {
    var l := Text.Lowercase(ext);
    assert forall i :: 0 <= i < |l| ==> Text.LowerChar(l[i]) == l[i];
  }

  /** The two choices differ on upper-case extensions: "JSON" is JSON5 on the
      dashboard but unsupported in the editor. */
  lemma UpperCaseExtensionDiffers()
    ensures FormatOf(Text.Lowercase("JSON")) == FileFormat.JSON5
    ensures ParserTypeOf("JSON") == ParserType.UNSUPPORTED
  {
    assert Text.Lowercase("JSON") == "json";
  }

  // --- The dashboard's file list ---

  datatype ProjectFile = ProjectFile(
    id: string, name: string, extension: string, content: string,
    nameWithExtension: string, format: FileFormat)

  /** The `ProjectFile` constructor with its defaults: the full name is
      "name.extension" and the format is unsupported until set. */
  function NewProjectFile(id: string, name: string, extension: string, content: string): ProjectFile {
    ProjectFile(id, name, extension, content, name + "." + extension, FileFormat.UNSUPPORTED)
  }

  /** A file the user picked; `content` is `None` when reading it fails. */
  datatype PickedFile = PickedFile(nameWithoutExtension: string, extension: string, content: Option<string>)

  predicate WellFormed(f: ProjectFile) {
    && f.nameWithExtension == f.name + "." + f.extension
    && f.extension == Text.Lowercase(f.extension)
    && f.format == FormatOf(f.extension)
  }

  /** The `mapNotNull` of `onFilesSelected(list)`: a readable file becomes a
      project file with a lower-cased extension and the format it names; an
      unreadable one is dropped. `ids` are the random ids, one per file. */
  function Imported(picked: seq<PickedFile>, ids: seq<string>): (r: seq<ProjectFile>)
    requires |ids| == |picked|
    ensures |r| <= |picked|
    ensures forall j :: 0 <= j < |r| ==> WellFormed(r[j])
    ensures forall j :: 0 <= j < |r| ==> ImportedFrom(picked, ids, r[j])
    ensures (forall k :: 0 <= k < |picked| ==> picked[k].content.Some?) ==> |r| == |picked|
    ensures (forall k :: 0 <= k < |picked| ==> picked[k].content.None?) ==> r == []
    decreases |picked|
  {
    if |picked| == 0 then []
    else
      var rest := Imported(picked[1..], ids[1..]);
      assert forall j :: 0 <= j < |rest| ==> ImportedFrom(picked, ids, rest[j]) by {
        forall j | 0 <= j < |rest|
          ensures ImportedFrom(picked, ids, rest[j])
        {
          assert ImportedFrom(picked[1..], ids[1..], rest[j]);
          var k :| 0 <= k < |picked[1..]| && Imports(picked[1..][k], ids[1..][k], rest[j]);
          assert Imports(picked[k + 1], ids[k + 1], rest[j]);
        }
      }
      ImportedHead(picked[0], ids[0]) + rest
  }

  /** What one picked file contributes: its project file when it was read,
      nothing otherwise. */
  function ImportedHead(p: PickedFile, id: string): (r: seq<ProjectFile>)
    ensures p.content.Some? ==> r == [ImportOne(p, id)]
    ensures p.content.None? ==> r == []
  {
    if p.content.Some? then [ImportOne(p, id)] else []
  }

  /** The project file the dashboard makes of a readable picked file: its
      name, content and id as given, its extension lower-cased and the format
      that extension names. */
  function ImportOne(p: PickedFile, id: string): (f: ProjectFile)
    requires p.content.Some?
    ensures WellFormed(f) && Imports(p, id, f)
  {
    var ext := Text.Lowercase(p.extension);
    FormatAgreesWithParserType(p.extension);
    NewProjectFile(id, p.nameWithoutExtension, ext, p.content.value).(format := FormatOf(ext))
  }

  /** The import goes file by file: the files made of a concatenation are
      those made of each part, in order. With `ImportOneFile` this says every
      readable file becomes one project file, in the order picked. */
  lemma {:induction false} ImportedConcat(p1: seq<PickedFile>, i1: seq<string>, p2: seq<PickedFile>, i2: seq<string>)
    requires |i1| == |p1| && |i2| == |p2|
    ensures Imported(p1 + p2, i1 + i2) == Imported(p1, i1) + Imported(p2, i2)
    decreases |p1|
  {
    if |p1| == 0 {
      assert p1 + p2 == p2 && i1 + i2 == i2;
    } else {
      ImportedConcat(p1[1..], i1[1..], p2, i2);
      ImportedConcatStep(p1, i1, p2, i2);
    }
  }

  /** The concatenation law for `p1` follows from the law for its tail. */
  lemma ImportedConcatStep(p1: seq<PickedFile>, i1: seq<string>, p2: seq<PickedFile>, i2: seq<string>)
    requires |i1| == |p1| > 0 && |i2| == |p2|
    requires Imported(p1[1..] + p2, i1[1..] + i2) == Imported(p1[1..], i1[1..]) + Imported(p2, i2)
    ensures Imported(p1 + p2, i1 + i2) == Imported(p1, i1) + Imported(p2, i2)
  {
    var p, i, t, u := p1 + p2, i1 + i2, p1[1..], i1[1..];
    assert |i| == |p| && |u| == |t|;
    var whole, first, x, y := Imported(p, i), Imported(p1, i1), Imported(t, u), Imported(p2, i2);
    ImportedConsConcat(p1, i1, p2, i2);
    ImportedCons(p1, i1);
    Seqs.PrependAssoc(whole, first, ImportedHead(p1[0], i1[0]), x, y);
  }

  lemma ImportedConsConcat(p1: seq<PickedFile>, i1: seq<string>, p2: seq<PickedFile>, i2: seq<string>)
    requires |i1| == |p1| > 0 && |i2| == |p2|
    ensures Imported(p1 + p2, i1 + i2) == ImportedHead(p1[0], i1[0]) + Imported(p1[1..] + p2, i1[1..] + i2)
  {
    Seqs.ConcatTail(p1, p2);
    Seqs.ConcatTail(i1, i2);
    ImportedCons(p1 + p2, i1 + i2);
  }

  /** One step of the import: the first file's project file, if any, comes
      before those of the rest. */
  lemma ImportedCons(p: seq<PickedFile>, i: seq<string>)
    requires |i| == |p| > 0
    ensures Imported(p, i) == ImportedHead(p[0], i[0]) + Imported(p[1..], i[1..])
  {
  }

  /** A readable file becomes exactly one project file; an unreadable one none. */
  lemma ImportOneFile(p: PickedFile, id: string)
    ensures Imported([p], [id]) == if p.content.Some? then [ImportOne(p, id)] else []
  {
    assert [p][1..] == [] && [id][1..] == [];
  }

  /** `f` is what the dashboard makes of one of the picked files under its id. */
  predicate ImportedFrom(picked: seq<PickedFile>, ids: seq<string>, f: ProjectFile)
    requires |ids| == |picked|
  {
    exists k :: 0 <= k < |picked| && Imports(picked[k], ids[k], f)
  }

  /** `f` is what the dashboard makes of picked file `p` under id `id`. */
  predicate Imports(p: PickedFile, id: string, f: ProjectFile) {
    && p.content == Some(f.content)
    && f.id == id
    && f.name == p.nameWithoutExtension
    && f.extension == Text.Lowercase(p.extension)
  }

  /** `onFilesSelected(list)`: the files read are appended after the ones
      already listed. */
  function OnFilesSelected(files: seq<ProjectFile>, picked: seq<PickedFile>, ids: seq<string>): (r: seq<ProjectFile>)
    requires |ids| == |picked|
    ensures |files| <= |r| <= |files| + |picked|
    ensures r[..|files|] == files
    ensures forall j :: |files| <= j < |r| ==> WellFormed(r[j])
  {
    files + Imported(picked, ids)
  }

  /** `onFilesSelected(projectFile)`: the file is appended with the format
      its lower-cased extension names; everything else about it, the
      extension included, is kept as given. */
  function OnProjectFileSelected(files: seq<ProjectFile>, f: ProjectFile): (r: seq<ProjectFile>)
    ensures |r| == |files| + 1 && r[..|files|] == files
    ensures r[|files|].format == FormatOf(Text.Lowercase(f.extension))
    ensures r[|files|].(format := f.format) == f
  {
    files + [f.(format := FormatOf(Text.Lowercase(f.extension)))]
  }

  /** `removeFile(id)`: every file with that id goes, the others keep their order. */
  function RemoveFile(files: seq<ProjectFile>, id: string): (r: seq<ProjectFile>)
    ensures |r| <= |files|
    ensures forall f :: f in r <==> f in files && f.id != id
    ensures (forall k :: 0 <= k < |files| ==> files[k].id != id) ==> r == files
    decreases |files|
  {
    if |files| == 0 then []
    else if files[0].id == id then RemoveFile(files[1..], id)
    else [files[0]] + RemoveFile(files[1..], id)
  }

  /** The removal goes file by file: removing from a concatenation removes
      from each part, in order. With `RemoveOneFile` this says the result is
      the subsequence of files with another id. */
  lemma {:induction false} RemoveFileConcat(a: seq<ProjectFile>, b: seq<ProjectFile>, id: string)
    ensures RemoveFile(a + b, id) == RemoveFile(a, id) + RemoveFile(b, id)
    decreases |a|
  {
    if |a| == 0 {
      assert a + b == b;
    } else {
      var ab := a + b;
      assert ab[0] == a[0] && ab[1..] == a[1..] + b;
      RemoveFileConcat(a[1..], b, id);
      var x, y := RemoveFile(a[1..], id), RemoveFile(b, id);
      if a[0].id != id {
        assert RemoveFile(ab, id) == [a[0]] + (x + y);
        assert [a[0]] + (x + y) == ([a[0]] + x) + y;
      }
    }
  }

  /** A single file is kept exactly when its id differs. */
  lemma RemoveOneFile(f: ProjectFile, id: string)
    ensures RemoveFile([f], id) == if f.id == id then [] else [f]
  {
    assert [f][1..] == [];
  }

  /** Removing the same id twice is removing it once. */
  lemma {:induction false} RemoveFileIdempotent(files: seq<ProjectFile>, id: string)
    ensures RemoveFile(RemoveFile(files, id), id) == RemoveFile(files, id)
  {
    var r := RemoveFile(files, id);
    assert forall k :: 0 <= k < |r| ==> r[k] in r;
  }

  /** Removing a freshly appended file by its id gives back the list it was
      appended to. */
  lemma {:induction false} RemoveAppended(files: seq<ProjectFile>, f: ProjectFile)
    requires forall k :: 0 <= k < |files| ==> files[k].id != f.id
    ensures RemoveFile(files + [f], f.id) == files
    decreases |files|
  {
    if |files| == 0 {
      assert RemoveFile([f], f.id) == RemoveFile([], f.id);
    } else {
      assert (files + [f])[1..] == files[1..] + [f];
      RemoveAppended(files[1..], f);
    }
  }
}
