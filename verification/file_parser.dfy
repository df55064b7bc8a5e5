/** `FileParser.parseFile`: the open file's text is handed to the parser its
    type names and the library tree is mapped into a fresh editable
    document. The libraries' text parsers are parameters; each returns the
    tree or the message of the exception it throws. */
module FileParser {
  import Seqs
  import Text
  import opened Wrappers
  import opened EditorModels
  import opened LibraryTrees
  import opened NodeMappers
  import opened FileFormats
  import opened NodeSerializer
  import opened EditorLogic

  /** The part of `FileItemModel` parsing reads. */
  datatype FileItem = FileItem(cachedOriginalContent: Option<string>, cachedEditedContent: Option<string>, parserType: ParserType)

  /** A file item as constructed: the edited text starts as the original. */
  function NewFileItem(original: Option<string>, t: ParserType): FileItem {
    FileItem(original, original, t)
  }

  datatype Parsers = Parsers(
    parseYaml: string -> Result<YamlNode, string>,
    parseJson5: string -> Result<JsonElement, string>)

  /** `ParseResult`; a success carries the document together with the first
      unused id, the model's stand-in for fresh UUIDs. */
  datatype ParseResult = ParseSuccess(doc: Document) | ParseError(message: string)

  /** The name string interpolation gives a parser type. */
  function ParserTypeName(t: ParserType): string {
    match t
    case JSON => "JSON"
    case JSON5 => "JSON5"
    case YAML => "YAML"
    case UNSUPPORTED => "UNSUPPORTED"
  }

  /** The text to parse: the edited text when there is one, else the original. */
  function ContentOf(file: FileItem): Option<string> {
    if file.cachedEditedContent.Some? then file.cachedEditedContent else file.cachedOriginalContent
  }

  /** `parseFile(file)`. The root node is mapped with no parent, as
      `toEditableNode(null)` does, and the JSON5 tree with the web
      converter's rule. */
  function ParseFile(file: FileItem, parsers: Parsers, ds: Text.DoubleSyntax): (r: ParseResult)
    ensures ContentOf(file).None? ==> r == ParseError("File not found or cant read")
    ensures ContentOf(file).Some? && file.parserType != ParserType.YAML && file.parserType != ParserType.JSON5
      ==> r == ParseError("Cant parse file")
    ensures r.ParseSuccess? ==>
      (&& r.doc.root.rootNode.parent == Detached
       && Wired(r.doc.root.rootNode) && FreshDisplay(r.doc.root.rootNode)
       && Consistent(r.doc))
  {
    match ContentOf(file)
    case None => ParseError("File not found or cant read")
    case Some(content) =>
      match file.parserType
      case YAML =>
        (match parsers.parseYaml(content)
         case Success(y) => Opened(FromYaml(y, Detached, 0, ds))
         case Failure(msg) => ParseError("Failed to parse " + ParserTypeName(file.parserType) + ": " + msg))
      case JSON5 =>
        (match parsers.parseJson5(content)
         case Success(j) => Opened(FromJson(j, Strict, Detached, 0, ds))
         case Failure(msg) => ParseError("Failed to parse " + ParserTypeName(file.parserType) + ": " + msg))
      case _ => ParseError("Cant parse file")
  }

  /** A mapped tree as a fresh document: ids so far are 0 .. c.next - 1. */
  function Opened(c: Cloned): (r: ParseResult)
    requires Ids(c.node) == Seqs.Range(0, c.next)
    ensures r.ParseSuccess? && r.doc.root.rootNode == c.node && IdsBelow(r.doc)
    ensures Seqs.Distinct(Ids(r.doc.root.rootNode))
  {
    ParseSuccess(Document(EditableRoot(c.node), c.next))
  }

  /** A parser's failure is reported with the file's type and the message. */
  lemma ParseFailureMessage(file: FileItem, parsers: Parsers, ds: Text.DoubleSyntax, msg: string)
    requires ContentOf(file).Some?
    requires (file.parserType == ParserType.YAML && parsers.parseYaml(ContentOf(file).value) == Failure(msg))
      || (file.parserType == ParserType.JSON5 && parsers.parseJson5(ContentOf(file).value) == Failure(msg))
    ensures ParseFile(file, parsers, ds) == ParseError("Failed to parse " + ParserTypeName(file.parserType) + ": " + msg)
  {
  }

  /** Opening a YAML file whose maps have distinct keys and saving it as
      YAML hands the encoder the parsed tree without its tags. */
  lemma YamlOpenSave(file: FileItem, parsers: Parsers, ds: Text.DoubleSyntax, y: YamlNode)
    requires file.parserType == ParserType.YAML && ContentOf(file).Some?
    requires parsers.parseYaml(ContentOf(file).value) == Success(y) && YamlKeysDistinct(y)
    ensures ParseFile(file, parsers, ds).ParseSuccess?
    ensures Serialize(ParseFile(file, parsers, ds).doc.root.rootNode, ParserType.YAML, ds) == YamlText(Untag(y))
  {
    YamlRoundTrip(y, Detached, 0, ds);
  }

  /** Opening a JSON5 file whose tree is canonical and saving it as JSON5
      hands the encoder the parsed tree unchanged. */
  lemma Json5OpenSave(file: FileItem, parsers: Parsers, ds: Text.DoubleSyntax, j: JsonElement)
    requires file.parserType == ParserType.JSON5 && ContentOf(file).Some?
    requires parsers.parseJson5(ContentOf(file).value) == Success(j) && Canonical(j, ds)
    ensures ParseFile(file, parsers, ds).ParseSuccess?
    ensures Serialize(ParseFile(file, parsers, ds).doc.root.rootNode, ParserType.JSON5, ds) == Json5Text(j)
  {
    JsonRoundTrip(j, Detached, 0, ds);
  }
}
