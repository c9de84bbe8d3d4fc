/** The file hooks that index.js registers (lines 21-57): delimiter escaping
    on load and unescaping before write for template files, and a parsed
    `json` view on load and its serialization before write for JSON files.

    JSON.parse and JSON.stringify are foreign code: they are parameters here
    (a `Parser` and a `Serializer`), and only the way the hooks use them is
    modelled. */
module Middleware {
  import opened Wrappers
  import opened Delimiters
  import opened Selectors

  /** The value tree JSON.parse produces. */
  datatype Json =
    | JNull
    | JBool(b: bool)
    | JNumber(n: real)
    | JString(s: string)
    | JArray(items: seq<Json>)
    | JObject(members: seq<(string, Json)>)

  /** JSON.parse: None when it throws on malformed text. */
  type Parser = Text -> Option<Json>

  /** JSON.stringify(value, null, 2); None is the JavaScript `undefined`. */
  type Serializer = Option<Json> -> Text

  datatype HookError = JsonSyntaxError

  datatype Outcome = Pass | Fail(error: HookError)

  /** The content the load hooks leave behind. */
  function LoadedContent(path: string, content: Text): Text {
    if IsTemplatePath(path) then Escape(content) else content
  }

  /** The `json` field the load hooks leave behind: replaced by the parse of
      the content on JSON paths, unless the parse throws. */
  function LoadedJson(path: string, content: Text, json: Option<Json>, parse: Parser): Option<Json> {
    if IsJsonPath(path) && parse(content).Some? then parse(content) else json
  }

  /** The content the pre-write hooks leave behind. */
  function WrittenContent(path: string, content: Text, json: Option<Json>, stringify: Serializer): Text {
    if IsTemplatePath(path) then Unescape(content)
    else if IsJsonPath(path) then stringify(json)
    else content
  }

  /** A file travelling through the pipeline; the hooks assign its fields. */
  class File {
    var path: string
    var content: Text
    var json: Option<Json>

    constructor (path: string, content: Text)
      ensures this.path == path && this.content == content && json == None
    {
      this.path := path;
      this.content := content;
      json := None;
    }

    /** The load hooks, in the order index.js registers them: the escape
        (lines 30-32), then the JSON parse (lines 44-47). */
    method OnLoad(parse: Parser) returns (outcome: Outcome)
      modifies this`content, this`json
      ensures content == LoadedContent(path, old(content))
      ensures json == LoadedJson(path, old(content), old(json), parse)
      ensures outcome == if IsJsonPath(path) && parse(old(content)).None? then Fail(JsonSyntaxError) else Pass
    {
      SelectorsDisjoint(path);
      if IsTemplatePath(path) {
        content := Escape(content);
      }
      if IsJsonPath(path) {
        var parsed := parse(content);
        if parsed.None? {
          return Fail(JsonSyntaxError);
        }
        json := parsed;
      }
      return Pass;
    }

    /** The pre-write hooks, in registration order: the unescape (lines
        34-36), then the JSON serialization (lines 54-57). */
    method PreWrite(stringify: Serializer)
      modifies this`content
      ensures content == WrittenContent(path, old(content), json, stringify)
    {
      SelectorsDisjoint(path);
      if IsTemplatePath(path) {
        content := Unescape(content);
      }
      if IsJsonPath(path) {
        content := stringify(json);
      }
    }
  }

  /** On a JSON path the written content is the serialization of `json`,
      whatever the content was before: the overwrite is unconditional. */
  lemma JsonWriteIsUnconditional(path: string, c1: Text, c2: Text, json: Option<Json>, stringify: Serializer)
    requires IsJsonPath(path)
    ensures WrittenContent(path, c1, json, stringify) == stringify(json)
    ensures WrittenContent(path, c1, json, stringify) == WrittenContent(path, c2, json, stringify)
  {
    SelectorsDisjoint(path);
  }

  /** A file gets at most one family of rewrites: template paths never see
      the JSON parse or serialization, JSON paths never see the delimiter
      rewrites. */
  lemma NoFileGetsBothRewrites(path: string, content: Text, json: Option<Json>, parse: Parser, stringify: Serializer)
    ensures IsTemplatePath(path) ==>
      LoadedJson(path, content, json, parse) == json && WrittenContent(path, content, json, stringify) == Unescape(content)
    ensures IsJsonPath(path) ==> LoadedContent(path, content) == content
  {
    SelectorsDisjoint(path);
  }

  /** Files matching neither pattern pass through both phases untouched. */
  lemma UnselectedFileUntouched(path: string, content: Text, json: Option<Json>, parse: Parser, stringify: Serializer)
    requires !IsTemplatePath(path) && !IsJsonPath(path)
    ensures LoadedContent(path, content) == content
    ensures LoadedJson(path, content, json, parse) == json
    ensures WrittenContent(path, content, json, stringify) == content
  {
  }

  /** Load then write of a template whose text holds no `__ESC_`: the
      leftmost `{%%=` or `<%%=` loses one `%`, the rest is kept. */
  lemma TemplateLifecycle(path: string, text: Text, k: int, json: Option<Json>, stringify: Serializer)
    requires IsTemplatePath(path) && !ContainsMarker(text) && IsFirstEscape(text, k)
    ensures WrittenContent(path, LoadedContent(path, text), json, stringify) == text[..k + 1] + text[k + 2..]
  {
    EscapeRoundTrip(text, k);
  }

  /** A JSON file whose `json` value is edited after load is written as the
      serialization of the edited value. */
  method EditJsonThenWrite(parse: Parser, stringify: Serializer, original: Text, edited: Json) returns (written: Text)
    ensures written == stringify(Some(edited))
  {
    var file := new File("name.json", original);
    var outcome := file.OnLoad(parse);
    file.json := Some(edited);
    assert IsJsonPath(file.path) by {
      assert file.path[|file.path| - 5..] == ".json";
    }
    SelectorsDisjoint(file.path);
    file.PreWrite(stringify);
    written := file.content;
  }
}
