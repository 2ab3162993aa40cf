/** The string work of run.py's main block: the configuration pass over the
    LaTeX template, the hyperlink pass over the main input, post-processing
    of lowdown's output, and the splice of that output into the template. */
module Driver {
  import opened Texts
  import opened Store
  import opened Inserts
  import opened Postprocess

  /** Directives into the configuration file are written `\INSERT{config.a.b}`. */
  const ConfigMarker: string := "\\INSERT{config."

  /** The line of the template that receives the converted document. */
  const Placeholder: string := "%%@@LOWDOWN_CONTENT@@%%"

  /** The template after `\INSERT{config.` is shortened to `\INSERT{`. */
  function ConfigPrefixed(content: string): string
  {
    ReplaceAll(content, ConfigMarker, Marker)
  }

  /** `replace_config_inserts`: drop the `config.` prefix of every directive,
      then resolve every directive as a dotted path into the configuration. */
  method ReplaceConfigInserts(content: string, config: Data) returns (r: Result<string>)
    ensures r == Scan(ConfigPrefixed(content), Plain(config))
  {
    r := ReplaceInsertsPlain(ReplaceAll(content, ConfigMarker, Marker), config);
  }

  /** A lone directive `\INSERT{config.k}` becomes `\INSERT{k}` and then the
      string found along the dotted path `k`; anything else there raises. */
  lemma ConfigTokenResolvesPath(k: string, config: Data)
    requires '\\' !in k && '}' !in k
    ensures forall v :: Scan(ConfigPrefixed(ConfigMarker + k + Close), Plain(config)) == Ok(v) <==>
                          GetTomlVal(config, k) == Ok(Reached(Leaf(v)))
    ensures Scan(ConfigPrefixed(ConfigMarker + k + Close), Plain(config)).Err? <==>
              !(GetTomlVal(config, k).Ok? && GetTomlVal(config, k).value.Reached? &&
                GetTomlVal(config, k).value.node.Leaf?)
  {
    ConfigPrefixOnce(k);
    ScanToken("", k, "", Plain(config));
    assert "" + Marker + k + Close + "" == Marker + k + Close;
    assert Scan("", Plain(config)) == Ok("");
    assert forall v :: "" + v + "" == v;
  }

  /** The configuration prefix occurs once in a lone directive, so the
      rewrite turns exactly that one into the plain marker. */
  lemma ConfigPrefixOnce(k: string)
    requires '\\' !in k && '}' !in k
    ensures ConfigPrefixed(ConfigMarker + k + Close) == Marker + k + Close
  {
    ConfigPrefixOnlyAtStart(k);
    ReplaceAllSingle("", ConfigMarker, k + Close, Marker);
    assert "" + ConfigMarker + (k + Close) == ConfigMarker + k + Close;
    assert "" + Marker + (k + Close) == Marker + k + Close;
  }

  /** The only backslash of a lone directive is its first character, so the
      configuration prefix occurs nowhere but at its start. */
  lemma ConfigPrefixOnlyAtStart(k: string)
    requires '\\' !in k && '}' !in k
    ensures forall p :: OccursAt("" + ConfigMarker + (k + Close), ConfigMarker, p) ==> p == 0
  {
    var s := "" + ConfigMarker + (k + Close);
    forall p | 0 < p < |s|
      ensures s[p] != '\\'
    {
      if p < |ConfigMarker| {
        assert s[p] == ConfigMarker[p];
      } else {
        assert s[p] == (k + Close)[p - |ConfigMarker|];
      }
    }
    forall p | OccursAt(s, ConfigMarker, p)
      ensures p == 0
    {
      assert s[p..p + |ConfigMarker|][0] == s[p];
    }
  }

  /** `template.replace('%%@@LOWDOWN_CONTENT@@%%', content)`. */
  function SpliceTemplate(template: string, body: string): string
  {
    ReplaceAll(template, Placeholder, body)
  }

  /** A template with one placeholder receives the body in its place and is
      otherwise unchanged. */
  lemma SpliceSinglePlaceholder(before: string, after: string, body: string)
    requires forall p :: OccursAt(before + Placeholder + after, Placeholder, p) ==> p == |before|
    ensures SpliceTemplate(before + Placeholder + after, body) == before + body + after
  {
    ReplaceAllSingle(before, Placeholder, after, body);
  }

  /** A template without the placeholder is written out as it is. */
  lemma SpliceNoPlaceholder(template: string, body: string)
    requires !Contains(template, Placeholder)
    ensures SpliceTemplate(template, body) == template
  {
    ReplaceAllAbsent(template, Placeholder, body);
  }

  /** The compiled document from the template, the configuration, the main
      input, its data store and a stand-in for the external lowdown
      conversion: both substitution passes, post-processing of the converted
      text, and the splice. The first pass that raises ends the run. */
  method Compile(template: string, config: Data, input: string, data: Data,
                 lowdown: string -> string) returns (r: Result<string>)
    ensures r.Ok? ==>
              Scan(ConfigPrefixed(template), Plain(config)).Ok? &&
              Scan(input, Linked(data)).Ok? &&
              r.value == SpliceTemplate(Scan(ConfigPrefixed(template), Plain(config)).value,
                                        ApplyRules(lowdown(Scan(input, Linked(data)).value), Rules))
    ensures r.Ok? <==>
              Scan(ConfigPrefixed(template), Plain(config)).Ok? && Scan(input, Linked(data)).Ok?
    ensures Scan(ConfigPrefixed(template), Plain(config)).Err? ==>
              r == Err(Scan(ConfigPrefixed(template), Plain(config)).error)
    ensures Scan(ConfigPrefixed(template), Plain(config)).Ok? && Scan(input, Linked(data)).Err? ==>
              r == Err(Scan(input, Linked(data)).error)
  {
    var interim := ReplaceConfigInserts(template, config);
    if interim.Err? {
      return Err(interim.error);
    }
    var content := ReplaceInserts(input, data);
    if content.Err? {
      return Err(content.error);
    }
    var processed := PostprocessContent(lowdown(content.value));
    r := Ok(SpliceTemplate(interim.value, processed));
  }
}
