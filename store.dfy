/** The parsed TOML data store and the two lookups run.py performs on it:
    `get_toml_key` (a first-level entry with its `value` field and metadata)
    and `get_toml_val` (a walk along a dotted path). */
module Store {
  import opened Texts

  /** A TOML value: a string, or a table of further values. */
  datatype Node = Leaf(text: string) | Table(entries: map<string, Node>)

  /** The top-level table that `toml.load` returns. */
  type Data = map<string, Node>

  /** Python exceptions the lookups and splices can raise; each aborts the run.
      `UnrenderedTable` stands for the one outcome the model does not produce
      text for: Python's `str()` of a table spliced into a hyperlink. */
  datatype Error = TypeError | AttributeError | UnrenderedTable

  datatype Result<T> = Ok(value: T) | Err(error: Error)

  /** The message of the fallback for an entry without a `value` field. */
  const FallbackMessage: string := "error with reproduce.work developer"

  /** The fallback text, as the LaTeX command `\texttt{...}` around the
      message that the source line spells out. */
  const MissingValueText: string := "\\texttt{" + FallbackMessage + "}"

  /** The same fallback as the Python literal actually denotes it: in a
      non-raw Python string (as in a Dafny one) `\t` is a TAB character. */
  const MissingValueTextAsWritten: string := "\texttt{error with reproduce.work developer}"

  /** The as-written literal does not start with a LaTeX command: its first
      character is a TAB and the backslash of `\texttt` is gone. */
  lemma MissingValueTextAsWrittenHasTab()
    ensures MissingValueTextAsWritten[0] == '\t'
    ensures '\\' !in MissingValueTextAsWritten
    ensures MissingValueTextAsWritten != MissingValueText
  {
    assert MissingValueTextAsWritten[0] != MissingValueText[0];
  }

  /** The corrected fallback starts with the command `\texttt{`, holds the
      message and closes the command's brace at its end. */
  lemma MissingValueTextIsTexttt()
    ensures MissingValueText[0] == '\\' && MissingValueText[1..8] == "texttt{"
    ensures MissingValueText[8..|MissingValueText| - 1] == FallbackMessage
    ensures MissingValueText[|MissingValueText| - 1] == '}'
  {
  }

  /** What `get_toml_key` returns when it does not raise: `(None, None)` for an
      absent key, or the entry's value together with a copy of the entry. */
  datatype Entry = Absent | Present(value: Node, metadata: map<string, Node>)

  /** `get_toml_key(data, key)`. On a table entry the `in` test and the
      `.copy()` are dictionary operations. On a string entry `'value' in s` is a
      substring test: when it holds, `s['value']` raises `TypeError`; when it
      does not, `s.copy()` raises `AttributeError`. */
  function GetTomlKey(data: Data, key: string): (r: Result<Entry>)
    ensures r == Ok(Absent) <==> key !in data
    ensures r.Err? <==> key in data && data[key].Leaf?
    ensures r.Ok? && r.value.Present? ==>
              key in data && data[key] == Table(r.value.metadata)
    ensures r.Ok? && r.value.Present? ==>
              r.value.value == if "value" in r.value.metadata then r.value.metadata["value"]
                               else Leaf(MissingValueText)
  {
    if key !in data then Ok(Absent)
    else match data[key]
      case Table(entry) =>
        var value := if "value" in entry then entry["value"] else Leaf(MissingValueText);
        Ok(Present(value, entry))
      case Leaf(s) =>
        if Contains(s, "value") then Err(TypeError) else Err(AttributeError)
  }

  /** What `get_toml_val` returns when it does not raise: the node reached, or
      `False` when a segment is missing. */
  datatype Reach = Reached(node: Node) | Missing

  /** The loop of `get_toml_val` from a given node over the remaining
      segments. Stepping into a table is a key test; stepping into a string is
      a substring test, and indexing a string with a string raises `TypeError`. */
  function Walk(node: Node, path: seq<string>): Result<Reach>
    decreases |path|
  {
    if |path| == 0 then Ok(Reached(node))
    else match node
      case Table(m) =>
        if path[0] in m then Walk(m[path[0]], path[1..]) else Ok(Missing)
      case Leaf(s) =>
        if Contains(s, path[0]) then Err(TypeError) else Ok(Missing)
  }

  /** `get_toml_val(data, key)`: split the key on `.` and walk from the top. */
  function GetTomlVal(data: Data, key: string): Result<Reach>
  {
    Walk(Table(data), Split(key, '.'))
  }

  /** Walking a path in two parts is walking the first part, then the second
      from wherever the first part ended; a miss or a fault on the first part
      is the outcome of the whole walk. */
  lemma {:induction false} WalkAppend(node: Node, p: seq<string>, q: seq<string>)
    ensures Walk(node, p + q) ==
              match Walk(node, p)
              case Ok(Reached(n)) => Walk(n, q)
              case other => other
    decreases |p|
  {
    if |p| > 0 {
      assert (p + q)[0] == p[0];
      assert (p + q)[1..] == p[1..] + q;
      match node
      case Table(m) =>
        if p[0] in m {
          WalkAppend(m[p[0]], p[1..], q);
        }
      case Leaf(s) =>
    } else {
      assert p + q == q;
    }
  }

  /** A segment missing from the table reached so far makes the whole lookup
      `False`, whatever segments follow. */
  lemma WalkMissingSegment(node: Node, p: seq<string>, k: string, q: seq<string>, m: map<string, Node>)
    requires Walk(node, p) == Ok(Reached(Table(m)))
    requires k !in m
    ensures Walk(node, p + [k] + q) == Ok(Missing)
  {
    WalkAppend(node, p, [k] + q);
    assert p + [k] + q == p + ([k] + q);
  }

  /** A dotted key is looked up by walking its segments in order. */
  lemma GetTomlValPath(data: Data, segs: seq<string>)
    requires |segs| >= 1
    requires forall seg :: seg in segs ==> '.' !in seg
    ensures GetTomlVal(data, Join(segs, '.')) == Walk(Table(data), segs)
  {
    JoinSplit(segs, '.');
  }

  /** A key without dots is a first-level lookup. */
  lemma GetTomlValFlat(data: Data, key: string)
    requires '.' !in key
    ensures GetTomlVal(data, key) == if key in data then Ok(Reached(data[key])) else Ok(Missing)
  {
    SplitNoSep(key, '.');
    var path := Split(key, '.');
    assert path[0] == key && path[1..] == [];
    if key in data {
      assert Walk(data[key], path[1..]) == Ok(Reached(data[key]));
    }
  }

  /** For a key without dots the two lookups agree: `get_toml_key` finds an
      entry exactly when `get_toml_val` does, and the metadata it returns is the
      whole table `get_toml_val` reaches. */
  lemma FlatLookupsAgree(data: Data, key: string)
    requires '.' !in key
    ensures GetTomlKey(data, key) == Ok(Absent) <==> GetTomlVal(data, key) == Ok(Missing)
    ensures GetTomlKey(data, key).Ok? && GetTomlKey(data, key).value.Present? ==>
              GetTomlVal(data, key) == Ok(Reached(Table(GetTomlKey(data, key).value.metadata)))
  {
    GetTomlValFlat(data, key);
  }
}
