# common-middleware: delimiter escaping and the JSON view, in Dafny

This project models `index.js` of common-middleware, a plugin for a template
build pipeline. The plugin registers file hooks with the host application:

- On load, a file whose path ends in `.md` or `.tmpl` has its leftmost `{%%=`
  or `<%%=` rewritten into a sentinel, `__ESC_{DELIM__` or `__ESC_<DELIM__`.
  A template pass that runs later therefore does not evaluate that tag.
- Before write, the leftmost `__ESC_<c>DELIM__` in the same files is turned
  back into `<c>%=`, so one level of escaping is removed.
- On load, a file whose path ends in `.json` or `.jshintrc` gets a `json`
  field holding the parse of its content.
- Before write, such a file's content is replaced by the serialization of
  `json`, indented by two spaces.

Modules:

- `Wrappers` (wrappers.dfy): `Option` and `FindFirst`. `FindFirst` is the
  leftmost search that a regular expression without the `g` flag performs.
- `Delimiters` (delimiters.dfy): `Escape` and `Unescape`, both pure functions
  on `seq<char>`. The module also holds the lemmas about them: identity cases,
  exact length change, only the first match rewritten, and the round trip.
- `Selectors` (selectors.dfy): the two path patterns, written as suffix tests.
  Lemmas show that each test agrees with a regular-expression search and that
  no path matches both patterns.
- `Middleware` (middleware.dfy): a `File` class with fields `path`, `content`
  and `json`. Its methods `OnLoad` and `PreWrite` assign those fields the way
  the hooks do, and are proved against the functions `LoadedContent`,
  `LoadedJson` and `WrittenContent`. Lemmas about those functions state the
  lifecycle properties.

`JSON.parse` and `JSON.stringify(value, null, 2)` are foreign code. They are
parameters of the methods: a `Parser` returns `None` where `JSON.parse`
throws, and a `Serializer` maps the `json` value to text. `None` stands for
JavaScript's `undefined`.

The round trip holds under a precondition: the text must not contain the
reserved `__ESC_` string at all. Requiring only that the text holds no complete
sentinel is not enough. `RoundTripNeedsMarkerFreeText` shows this with
`__ESC_xDELIM{%%=`. Escaping that text gives `__ESC_xDELIM__ESC_{DELIM__`,
and the leftmost sentinel in that result starts at position 0, not at the
inserted one. Unescape therefore yields `x%=ESC_{DELIM__`.

In `index.js` each `replace` call rewrites only its leftmost match, `json` is
parsed eagerly on load, and the pre-write serialization is unconditional and
adds no newline.

## Model

| member | source | states |
|---|---|---|
| `Wrappers.FindFirst` | index.js:31-35 | the result is the leftmost position in the range satisfying the pattern, and None exactly when no position does (how a non-global `replace` picks its match) |
| `Delimiters.FirstEscapeIs` | index.js:31 | the escape search finds nothing exactly when `{%%=`/`<%%=` does not occur, and otherwise finds its leftmost occurrence |
| `Delimiters.FirstSentinelIs` | index.js:35 | the unescape search finds nothing exactly when no `__ESC_<c>DELIM__` occurs with c a single UTF-16 code unit other than a line terminator, and otherwise finds the leftmost one |
| `Delimiters.EscapeIdentity` | index.js:31 | escape leaves the text unchanged if and only if it contains neither `{%%=` nor `<%%=` |
| `Delimiters.EscapeLength` | index.js:31 | escape grows the text by exactly 10 characters when a match exists and by 0 otherwise |
| `Delimiters.EscapeRewritesFirstOnly` | index.js:31 | only the leftmost match is rewritten: the prefix before it and the suffix after it are kept, every later `{%%=`/`<%%=` survives (shifted by 10), and the sentinel records the matched bracket |
| `Delimiters.UnescapeIdentity` | index.js:35 | unescape leaves the text unchanged if and only if it contains no sentinel |
| `Delimiters.UnescapeLength` | index.js:35 | unescape shrinks the text by exactly 11 characters when a sentinel exists and by 0 otherwise |
| `Delimiters.UnescapeRewritesFirstOnly` | index.js:35 | only the leftmost sentinel is rewritten, into its captured character followed by `%=`; the text before and after it is kept |
| `Delimiters.UnescapeSentinel` | index.js:35 | any character that `.` matches (one UTF-16 code unit, not a line terminator) is emitted before `%=`, not only brackets; any other character in that place leaves the text as it is |
| `Delimiters.EscapedSentinelIsFirst` | index.js:31-35 | after escaping text free of `__ESC_`, the inserted sentinel is the leftmost one, so unescape picks exactly it |
| `Delimiters.EscapeRoundTrip` | index.js:30-36 | for text free of `__ESC_`, unescape after escape removes exactly one `%` from the leftmost `{%%=`/`<%%=` and changes nothing else; the bracket is the one the text had |
| `Delimiters.EscapeRoundTripNoMatch` | index.js:30-36 | text free of `__ESC_` with nothing to escape comes back unchanged from escape then unescape |
| `Delimiters.RoundTripNeedsMarkerFreeText` | index.js:30-36 | `__ESC_xDELIM{%%=` holds no sentinel and has its leftmost escape at 12, yet the round trip yields `x%=ESC_{DELIM__` instead of `__ESC_xDELIM{%=` |
| `Delimiters.TestTemplatesRoundTrip` | test.js:22-33 | loading then writing the text of the test pages `a {%= name %} b {%%= foo %} c` and `a <%= name %> b <%%= foo %> c` gives `{%= foo %}` / `<%= foo %>` with the single-percent tag untouched |
| `Selectors.HasExtensionIsSearch` | index.js:13-14 | the suffix test for `.ext` holds if and only if some `.` in the path is followed by exactly `ext` up to the end, which is the regular expression's reading |
| `Selectors.SelectorsAreSearches` | index.js:13-14 | the JSON selector holds for a path that a search for `.json` or `.jshintrc` at the end finds, and the template selector for `.md` or `.tmpl` at the end, in both directions |
| `Selectors.SelectorsDisjoint` | index.js:13-14 | no path is selected by both the JSON pattern and the template pattern |
| `Middleware.File.OnLoad` | index.js:30-47 | template paths get the escaped content; JSON paths get `json` set to the parse of the content, or a syntax-error outcome with `json` unchanged when the parse throws; other files and fields are untouched |
| `Middleware.File.PreWrite` | index.js:34-57 | template paths get the unescaped content; JSON paths get content set to the serialization of `json`; other files are untouched, and `json` is never changed |
| `Middleware.JsonWriteIsUnconditional` | index.js:54-57 | on a JSON path the written content is the serialization of `json`, whatever the content was before |
| `Middleware.NoFileGetsBothRewrites` | index.js:30-57 | a template path never has `json` set or its content serialized, and a JSON path never has its content escaped |
| `Middleware.UnselectedFileUntouched` | index.js:13-14 | a path matching neither pattern keeps its content and `json` through load and write |
| `Middleware.TemplateLifecycle` | index.js:30-36 | loading then writing a template whose text is free of `__ESC_` removes one `%` from its leftmost `{%%=`/`<%%=` and keeps everything else |
| `Middleware.EditJsonThenWrite` | test.js:55-64 | a `name.json` file whose `json` is replaced after load is written as the serialization of the new value |

## Left out

- Front-matter parsing (index.js:21-23) is left out. It is delegated to the foreign `parser-front-matter` library. That hook runs before the escape hook and may strip a front-matter block, so `OnLoad` starts from the content as that hook leaves it.
- `JSON.parse` and `JSON.stringify` internals are not modelled. They are the `Parser` and `Serializer` parameters, so the model does not state the two-space format or the absence of a trailing newline.
- The host application is not modelled: its `onLoad`/`preWrite` registry, the `next` continuations, rendering engines and view collections. The escape and unescape hooks never call `next()` (index.js:30-36). Whether the host then runs later hooks is host behaviour and not modelled. The selectors are disjoint, so at most one family of hooks applies to any file.
- An exception from `JSON.parse` is modelled as the `Fail(JsonSyntaxError)` outcome. What the host does with it is not modelled.
- `Middleware.File.PreWrite`: `JSON.stringify(undefined)` yields `undefined`, not a string. The model hands `None` to the serializer, which must return text, so this case is stated weaker than JavaScript's behaviour.
- Text is a sequence of Unicode scalar values, not of UTF-16 code units. A JavaScript string may hold a lone surrogate, which the model cannot represent.
- Template rendering is not modelled, and the render expectations of test.js:67-92 do not follow from index.js, for two reasons. First, the unescape is a `preWrite` hook (index.js:34), and those tests call only `page.render`; the one test that runs `preWrite` triggers it by hand (test.js:60). Against index.js the rendered output would still hold `__ESC_{DELIM__` or `__ESC_<DELIM__`. Second, test.js:12-14 passes an options object `{escapeRegex: ...}` to the exported function, which index.js:12 takes as the host application and calls `onLoad` on (index.js:21). `Delimiters.TestTemplatesRoundTrip` states what loading and then writing the test pages' text does under index.js, not what the tests check.
- The `escapeRegex` option is never read by index.js, so `.foo` paths are not selected by either pattern, and the `three.foo` expectation (test.js:85-92) is not modelled.
- utils.js is not part of this model. It only wires up lazily required libraries.
