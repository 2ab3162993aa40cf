# tex-prepare: a Dafny model of run.py

`run.py` turns a Markdown manuscript into a LaTeX document. It does this in four steps:

1. It resolves `\INSERT{config.a.b}` directives in a LaTeX template against the
   project's `config.toml`.
2. It resolves `\INSERT{key}` directives in the manuscript against a TOML data
   store. Each value becomes a `\hyperlink{reproduce.work}{...}`.
3. It hands the manuscript to the external `lowdown` converter. It then undoes the
   escapes lowdown writes with a fixed replacement table.
4. It splices the result into the template at the line
   `%%@@LOWDOWN_CONTENT@@%%`.

The model has five modules:

- `Texts`: the Python string builtins the script relies on, written over
  `seq<char>`. These are `str.find` (returning `Option`), `in` (a substring
  test), `str.replace` (non-overlapping, left to right, interleaving for an empty
  pattern), and `str.split` with its inverse `join`.
- `Store`: parsed TOML as `Node = Leaf(string) | Table(map)`, and the two
  lookups.
  - `GetTomlKey` models `get_toml_key`.
  - `GetTomlVal` models `get_toml_val`, a walk along the dotted path.
  - Python's dynamic typing turns into explicit error outcomes. On a string,
    `'value' in s` is a substring test, `s['value']` raises `TypeError`, and
    `s.copy()` raises `AttributeError`.
- `Inserts`: the two directive scanners. `Scan` is the specification. It reads
  a text as its first token, meaning the first `\INSERT{` and the first `}` after
  it, followed by the text after that `}`, which is scanned on its own. A decision
  function says what happens to each key: splice a text, leave the token, or raise.
  - `ScanLoop` is the source's cursor loop, as an imperative `while` loop. It is
    proved equal to `Cursor`, the loop written as a function.
  - `CursorAgrees` proves that `Cursor` computes `Scan`.
  - `ReplaceInserts` and `ReplaceInsertsPlain` are that loop with the decision of
    `replace_inserts_in_content` and of `replace_inserts_in_content_plain`.
- `Postprocess`: the replacement table of `lowdown_postprocess`, in dictionary
  order, and its loop.
- `Driver`: the script's main block as far as it is string work. This covers the
  configuration pass with its `config.` prefix rewrite, the template splice, and
  `Compile`, which chains all passes. The lowdown conversion is a function
  parameter.

How the two scanners treat a lookup, as `run.py` does it:

- The hyperlink scanner leaves a token whose key is absent in place.
- The plain scanner concatenates whatever `get_toml_val` returns. It therefore
  raises `TypeError` for a missing path (`False`) and for a table.
- Neither scanner reads a URL field from the entry.

## Model

| member | source | states |
|---|---|---|
| Texts.Find | run.py:29 | a found index lies at or after the start position, and the marker occurs there |
| Texts.FindIsFirst | run.py:29-33 | the index `find` returns is the first occurrence at or after the start. `-1` means there is none at all |
| Texts.ReplaceAllAbsent | run.py:120-122 | replacing a key the content does not contain leaves it unchanged, so the `key in content` guard changes nothing |
| Texts.ReplaceAllNotLonger | run.py:122 | a replacement no longer than its non-empty pattern never lengthens the text |
| Texts.ReplaceAllSingle | run.py:197 | replacing a pattern that occurs exactly once puts the replacement in its place and keeps both sides byte for byte |
| Texts.SplitJoin | run.py:60 | joining the segments of `key.split(".")` with `.` gives back the key |
| Texts.JoinSplit | run.py:60 | splitting dot-free segments joined with `.` gives back exactly those segments |
| Store.GetTomlKey | run.py:8-23 | `(None, None)` exactly when the key is absent. A string entry raises. A table entry yields its `value` field, or the corrected `\texttt{...}` fallback when the field is missing, together with the whole entry as metadata |
| Store.MissingValueTextAsWrittenHasTab | run.py:16 | the fallback literal as written starts with a TAB, holds no backslash, and differs from the intended `\texttt{...}` |
| Store.MissingValueTextIsTexttt | run.py:16 | the corrected fallback is the LaTeX command `\texttt{` around the message, closed by `}` |
| Store.WalkAppend | run.py:62-66 | walking a path in two parts is walking the first part and then the rest from where it ended. A miss or a fault in the first part decides the outcome |
| Store.WalkMissingSegment | run.py:63-66 | a segment missing from the table reached so far makes the whole lookup `False`, whatever follows |
| Store.GetTomlValPath | run.py:59-67 | a dotted key is looked up by walking its dot-free segments in order |
| Store.GetTomlValFlat | run.py:59-67 | a key without dots is looked up at the first level: the entry when present, `False` otherwise |
| Store.FlatLookupsAgree | run.py:11-23 | for a key without dots, `get_toml_key` reports the key absent exactly when `get_toml_val` returns `False`. The metadata it returns is the table `get_toml_val` reaches |
| Inserts.CloseAfterMarker | run.py:32-36 | the first `}` after a marker lies after the whole marker, so the key slice is well formed |
| Inserts.ScanLoop | run.py:27-56 | the cursor loop returns what the loop function `Cursor` gives from position 0: stop when no marker or no `}` follows; otherwise raise, skip past the `}`, or splice and move past the inserted text |
| Inserts.CursorAbortStep | run.py:37 | a raising lookup ends the loop with that error |
| Inserts.CursorSkipStep | run.py:54-55 | an unresolved token moves the cursor just past its `}` and leaves the text unchanged |
| Inserts.CursorSpliceStep | run.py:51-53 | a resolved token is replaced in the text, and the cursor moves to the end of the inserted text |
| Inserts.CursorAgrees | run.py:28-55 | from any cursor position, the loop keeps the text before the cursor and produces the token-by-token scan of the text after it |
| Inserts.CursorFromStart | run.py:26-56 | started at position 0, the loop computes the token specification `Scan` |
| Inserts.ReplaceInserts | run.py:26-56 | `replace_inserts_in_content` computes `Scan` with the hyperlink decision. Absent keys are skipped, string values become `\hyperlink{reproduce.work}{v}`, and string entries raise |
| Inserts.ReplaceInsertsPlain | run.py:70-90 | `replace_inserts_in_content_plain` computes `Scan` with the plain decision: the string at the dotted path, or a raise |
| Inserts.ScanNoMarker | run.py:29-31 | text without `\INSERT{` comes back unchanged |
| Inserts.ScanLocal | run.py:29 | text in which no marker starts is kept as it is, and the scan of what follows does not depend on it |
| Inserts.ScanToken | run.py:36-53 | one token after marker-free text: the text before it is kept and the key is decided. The text after the `}` is scanned on its own, so a spliced value is never rescanned |
| Inserts.ScanAllSkipped | run.py:54-55 | when no key resolves, every text comes back unchanged |
| Inserts.ScanEmptyStore | run.py:37-55 | the hyperlink scanner against an empty data store changes nothing |
| Inserts.SelfReferenceNotRescanned | run.py:51-53 | a value holding its own directive is spliced once and not expanded again |
| Postprocess.RulesShrink | run.py:105-117 | every row of the table has a non-empty key and a value no longer than it |
| Postprocess.PostprocessContent | run.py:119-122 | the loop over the table gives the rules applied in dictionary order, each to the output of the one before |
| Postprocess.ApplyRulesNotLonger | run.py:119-122 | rules that shrink never lengthen the content |
| Postprocess.PostprocessNotLonger | run.py:105-122 | post-processing never makes lowdown's output longer |
| Postprocess.ApplyRulesAbsent | run.py:119-122 | content holding none of the keys passes through unchanged |
| Postprocess.ApplyRulesAppend | run.py:106 | applying the table is applying a first part and then the rest to its output. Each rule sees what the rules before it produced, which is why order matters |
| Driver.ReplaceConfigInserts | run.py:154-163 | the configuration pass is the plain scan of the template after every `\INSERT{config.` became `\INSERT{` |
| Driver.ConfigPrefixOnce | run.py:160 | in a lone directive `\INSERT{config.k}` the prefix rewrite changes exactly that one occurrence |
| Driver.ConfigTokenResolvesPath | run.py:159-162 | a lone `\INSERT{config.k}` yields `v` exactly when `get_toml_val(config, k)` reaches the string `v`. It raises exactly when the path does not reach a string |
| Driver.SpliceSinglePlaceholder | run.py:197 | a template with one placeholder receives the body in its place and is otherwise unchanged |
| Driver.SpliceNoPlaceholder | run.py:197 | a template without the placeholder is written out unchanged |
| Driver.Compile | run.py:165-197 | the compiled document is the configured template with post-processed lowdown output spliced in. It succeeds exactly when both substitution passes do. A failing configuration pass is the error returned, and otherwise a failing hyperlink pass is |

## Left out

- `run_lowdown` (run.py:93-96) runs an external program through `os.system` and `sed`. `Compile` takes the conversion as a function parameter.
- File reading and writing, `os.makedirs`, `load_dotenv`/`os.getenv` and `toml.load` are left out. The model works on the texts and the parsed data they produce. The interim files in the `tmp` directory are not modelled.
- `print` calls have no effect on the output and are left out. This includes the printing of an entry's `description` (run.py:41-45), which computes an unused string.
- TOML values other than strings and tables (integers, floats, booleans, dates, arrays) are left out. Their `str()`/`f`-string renderings are not modelled.
- Store.GetTomlKey: for a table entry without a `value` field it returns the corrected fallback `MissingValueText` (`\texttt{...}`), not the TAB-led text the literal at run.py:16 denotes. The as-written literal is `MissingValueTextAsWritten`; see "## Findings". `Inserts.ReplaceInserts` and `Driver.Compile` inherit this corrected fallback.
- Driver.Compile: the configured template goes through a file written at run.py:167-168 and read back in text mode at run.py:194-195. Python's universal-newline read turns `\r\n` and a lone `\r` into `\n`, so a configuration value holding `\r` reaches the compiled document as `\n`. `Compile` treats this round trip as the identity. The same holds for the lowdown input and output files (run.py:180-192).
- Inserts.ReplaceInserts: a table-valued `value` field would be spliced as Python's `str()` of a dictionary. The model returns `Err(UnrenderedTable)` there instead of producing that text.
- `tmp_config = base_config.copy()` (run.py:157) is a shallow copy that is only read, so the model passes the configuration itself.
- The `base_config['repro']['files'][...]` lookups that name the input files (run.py:150, 173, 175) belong to file handling and are left out with it.
- The backtick fix mentioned at run.py:116 is not in the table, so it is not in the model either.

## Findings

| source | as written | input that shows it | evidently intended | confidence | as-written member | corrected member |
|---|---|---|---|---|---|---|
| run.py:16 | `'\texttt{error with reproduce.work developer}'`. In a non-raw Python string `\t` is a TAB, so the fallback starts with a TAB followed by `exttt{...}` | a data store entry `[k]` that is a table without a `value` field, referenced as `\INSERT{k}` | the LaTeX command `\texttt{error with reproduce.work developer}` (a raw string or `\\t`) | not executed | Store.MissingValueTextAsWrittenHasTab | Store.MissingValueTextIsTexttt |
