/** The two `\INSERT{key}` substitution scanners of run.py:
    `replace_inserts_in_content` (hyperlinked values from the data store) and
    `replace_inserts_in_content_plain` (raw values along a dotted path).

    Both are specified by `Scan`, which reads the text as a sequence of tokens:
    the first `\INSERT{` marker, the key up to the first `}` after it, and the
    rest of the text after that `}`, which is scanned on its own. The methods
    walk the text with a cursor instead, as the source does, and are proved to
    compute `Scan`. */
module Inserts {
  import opened Texts
  import opened Store

  /** The directive marker; the key starts right after it. */
  const Marker: string := "\\INSERT{"

  /** The character that ends a key. */
  const Close: string := "}"

  /** What a scanner does with one token: replace it by `text`, leave it in
      place, or raise. */
  datatype Resolution = Splice(text: string) | Skip | Abort(error: Error)

  /** The "dummy" hyperlink `replace_inserts_in_content` wraps a value in. */
  function Hyperlink(v: string): string
  {
    "\\hyperlink{reproduce.work}{" + v + "}"
  }

  /** The hyperlink scanner's decision for a key: a key `get_toml_key` does
      not find is skipped, a found string value is wrapped in a hyperlink. */
  function LinkedDecision(data: Data, key: string): Resolution
  {
    var lookup := GetTomlKey(data, key);
    if lookup.Err? then Abort(lookup.error)
    else if lookup.value.Absent? then Skip
    else if lookup.value.value.Leaf? then Splice(Hyperlink(lookup.value.value.text))
    else Abort(UnrenderedTable)
  }

  /** The plain scanner's decision for a key: it concatenates whatever
      `get_toml_val` returns, which raises `TypeError` for anything but a
      string (`False` for a missing segment, a dictionary for a table). */
  function PlainDecision(data: Data, key: string): Resolution
  {
    var found := GetTomlVal(data, key);
    if found.Err? then Abort(found.error)
    else if found.value.Reached? && found.value.node.Leaf? then Splice(found.value.node.text)
    else Abort(TypeError)
  }

  function Linked(data: Data): string -> Resolution
  {
    key => LinkedDecision(data, key)
  }

  function Plain(data: Data): string -> Resolution
  {
    key => PlainDecision(data, key)
  }

  /** Prefix `p` to a successful outcome. */
  function Then(p: string, r: Result<string>): Result<string>
  {
    match r
    case Ok(t) => Ok(p + t)
    case Err(e) => Err(e)
  }

  /** Carry out a decision on one token: `before` is the text ahead of the
      token, `token` the token itself, `rest` the outcome for what follows. */
  function Apply(d: Resolution, before: string, token: string, rest: Result<string>): Result<string>
  {
    match d
    case Splice(v) => Then(before + v, rest)
    case Skip => Then(before + token, rest)
    case Abort(e) => Err(e)
  }

  lemma ThenEmpty(r: Result<string>)
    ensures Then("", r) == r
  {
    match r
    case Ok(t) => assert "" + t == t;
    case Err(_) =>
  }

  lemma ThenThen(a: string, b: string, r: Result<string>)
    ensures Then(a, Then(b, r)) == Then(a + b, r)
  {
    match r
    case Ok(t) => assert a + (b + t) == (a + b) + t;
    case Err(_) =>
  }

  /** The first `}` after a marker lies after the whole marker, so the key
      between them is well defined. */
  lemma CloseAfterMarker(s: string, i: nat, j: nat)
    requires OccursAt(s, Marker, i) && OccursAt(s, Close, j) && i <= j
    ensures i + |Marker| <= j
  {
    assert forall k :: i <= k < i + |Marker| ==> s[k] == Marker[k - i];
    assert forall c :: 0 <= c < |Marker| ==> Marker[c] != '}';
    assert s[j] == '}';
  }

  /** The scanners' specification, token by token. */
  function Scan(s: string, decide: string -> Resolution): Result<string>
    decreases |s|, 1
  {
    match Find(s, Marker, 0)
    case None => Ok(s)
    case Some(i) =>
      match Find(s, Close, i)
      case None => Ok(s)
      case Some(j) =>
        CloseAfterMarker(s, i, j);
        ScanAt(s, i, j, decide)
  }

  /** `Scan` once its first token is known to span `s[i..j + 1]`: the text
      before the token, the token as the decision for its key leaves it, and
      the rest scanned on its own. */
  function ScanAt(s: string, i: nat, j: nat, decide: string -> Resolution): Result<string>
    requires i + |Marker| <= j < |s|
    decreases |s|, 0
  {
    Apply(decide(s[i + |Marker|..j]), s[..i], s[i..j + 1], Scan(s[j + 1..], decide))
  }

  /** The cursor stops when no marker follows it: the rest is unchanged. */
  lemma ScanStopNoMarker(text: string, pos: nat, decide: string -> Resolution)
    requires pos <= |text|
    requires Find(text, Marker, pos).None?
    ensures Scan(text[pos..], decide) == Ok(text[pos..])
  {
    FindDrop(text, Marker, pos, 0);
  }

  /** The cursor stops when no `}` follows the next marker: the rest is unchanged. */
  lemma ScanStopNoClose(text: string, pos: nat, i: nat, decide: string -> Resolution)
    requires pos <= |text|
    requires Find(text, Marker, pos) == Some(i)
    requires Find(text, Close, i).None?
    ensures Scan(text[pos..], decide) == Ok(text[pos..])
  {
    var t := text[pos..];
    FindInSuffix(text, Marker, pos, 0, i);
    FindDrop(text, Close, pos, i - pos);
  }

  /** The first token of a text, as `Scan` reads it. */
  lemma ScanFirstToken(t: string, a: nat, b: nat, decide: string -> Resolution)
    requires Find(t, Marker, 0) == Some(a)
    requires Find(t, Close, a) == Some(b)
    ensures a + |Marker| <= b < |t|
    ensures Scan(t, decide) == ScanAt(t, a, b, decide)
  {
    CloseAfterMarker(t, a, b);
  }

  /** One step of the cursor: the token found from `pos` is the first token of
      the text after `pos`. */
  lemma ScanStep(text: string, pos: nat, i: nat, j: nat, decide: string -> Resolution)
    requires pos <= |text|
    requires Find(text, Marker, pos) == Some(i)
    requires Find(text, Close, i) == Some(j)
    ensures pos <= i && i + |Marker| <= j < |text|
    ensures Scan(text[pos..], decide) ==
              Apply(decide(text[i + |Marker|..j]), text[pos..i], text[i..j + 1],
                    Scan(text[j + 1..], decide))
  {
    FindInSuffix(text, Marker, pos, 0, i);
    FindInSuffix(text, Close, pos, i - pos, j);
    ScanFirstToken(text[pos..], i - pos, j - pos, decide);
    TokenSlices(text, pos, i, j);
  }

  /** The pieces of the first token after the cursor, read in the suffix and
      in the whole text. */
  lemma TokenSlices(text: string, pos: nat, i: nat, j: nat)
    requires pos <= i && i + |Marker| <= j < |text|
    ensures text[pos..][i - pos + |Marker|..j - pos] == text[i + |Marker|..j]
    ensures text[pos..][..i - pos] == text[pos..i]
    ensures text[pos..][i - pos..j - pos + 1] == text[i..j + 1]
    ensures text[pos..][j - pos + 1..] == text[j + 1..]
  {
  }

  /** After a splice the cursor stands right after the inserted text, and the
      specification still describes what is left to do. */
  lemma SpliceKeepsScan(text: string, pos: nat, i: nat, j: nat, v: string, decide: string -> Resolution)
    requires pos <= i <= j < |text|
    ensures i + |v| <= |text[..i] + v + text[j + 1..]|
    ensures Then(text[..pos], Then(text[pos..i] + v, Scan(text[j + 1..], decide))) ==
            Then((text[..i] + v + text[j + 1..])[..i + |v|],
                 Scan((text[..i] + v + text[j + 1..])[i + |v|..], decide))
  {
    var next := text[..i] + v + text[j + 1..];
    ThenThen(text[..pos], text[pos..i] + v, Scan(text[j + 1..], decide));
    assert text[..pos] + (text[pos..i] + v) == next[..i + |v|];
    assert next[i + |v|..] == text[j + 1..];
  }

  /** After a skipped token the cursor stands right after its `}`. */
  lemma SkipKeepsScan(text: string, pos: nat, i: nat, j: nat, decide: string -> Resolution)
    requires pos <= i <= j < |text|
    ensures Then(text[..pos], Then(text[pos..i] + text[i..j + 1], Scan(text[j + 1..], decide))) ==
            Then(text[..j + 1], Scan(text[j + 1..], decide))
  {
    ThenThen(text[..pos], text[pos..i] + text[i..j + 1], Scan(text[j + 1..], decide));
    assert text[..pos] + (text[pos..i] + text[i..j + 1]) == text[..j + 1];
  }

  /** The scanners' loop itself, as a function of the text and the cursor:
      find the next marker from the cursor and the first `}` after it, then
      leave the token and move past its `}`, or splice and move past the
      inserted text, or raise. */
  function Cursor(text: string, pos: nat, decide: string -> Resolution): Result<string>
    decreases |text| - pos, 1
  {
    match Find(text, Marker, pos)
    case None => Ok(text)
    case Some(i) =>
      match Find(text, Close, i)
      case None => Ok(text)
      case Some(j) =>
        CloseAfterMarker(text, i, j);
        Resume(text, i, j, decide(text[i + |Marker|..j]), decide)
  }

  /** The second half of one round of the loop: act on the decision `d` for
      the token spanning `text[i..j + 1]`, then go on. */
  function Resume(text: string, i: nat, j: nat, d: Resolution, decide: string -> Resolution): Result<string>
    requires i <= j < |text|
    decreases |text| - i, 0
  {
    match d
    case Abort(e) => Err(e)
    case Skip => Cursor(text, j + 1, decide)
    case Splice(v) => Cursor(text[..i] + v + text[j + 1..], i + |v|, decide)
  }

  /** The cursor loop computes the token specification: from any cursor
      position, the text before the cursor is kept and the text after it is
      scanned token by token. */
  lemma {:induction false} CursorAgrees(text: string, pos: nat, decide: string -> Resolution)
    requires pos <= |text|
    ensures Cursor(text, pos, decide) == Then(text[..pos], Scan(text[pos..], decide))
    decreases |text| - pos, 1
  {
    match Find(text, Marker, pos)
    case None =>
      ScanStopNoMarker(text, pos, decide);
      assert text[..pos] + text[pos..] == text;
    case Some(i) =>
      match Find(text, Close, i)
      case None =>
        ScanStopNoClose(text, pos, i, decide);
        assert text[..pos] + text[pos..] == text;
      case Some(j) =>
        CursorAgreesToken(text, pos, i, j, decide);
  }

  /** `CursorAgrees` when a whole token follows the cursor: a raising decision
      ends both, a skip moves the cursor past the token's `}`, a splice moves
      it past the inserted text. */
  lemma {:induction false} CursorAgreesToken(text: string, pos: nat, i: nat, j: nat,
                                             decide: string -> Resolution)
    requires pos <= |text|
    requires Find(text, Marker, pos) == Some(i) && Find(text, Close, i) == Some(j)
    ensures Cursor(text, pos, decide) == Then(text[..pos], Scan(text[pos..], decide))
    decreases |text| - pos, 0
  {
    CloseAfterMarker(text, i, j);
    match decide(text[i + |Marker|..j])
    case Skip =>
      ScanSkip(text, pos, i, j, decide);
      CursorSkipStep(text, pos, i, j, decide);
      CursorAgrees(text, j + 1, decide);
    case Splice(v) =>
      ScanSplice(text, pos, i, j, v, decide);
      CursorSpliceStep(text, pos, i, j, v, decide);
      CursorAgrees(text[..i] + v + text[j + 1..], i + |v|, decide);
    case Abort(e) =>
      ScanAbort(text, pos, i, j, e, decide);
      CursorAbortStep(text, pos, i, j, decide);
  }

  /** On the specification, a skipped token moves the cursor past its `}`. */
  lemma ScanSkip(text: string, pos: nat, i: nat, j: nat, decide: string -> Resolution)
    requires pos <= |text|
    requires Find(text, Marker, pos) == Some(i) && Find(text, Close, i) == Some(j)
    requires i + |Marker| <= j && decide(text[i + |Marker|..j]) == Skip
    ensures j < |text|
    ensures Then(text[..pos], Scan(text[pos..], decide)) == Then(text[..j + 1], Scan(text[j + 1..], decide))
  {
    ScanStep(text, pos, i, j, decide);
    SkipKeepsScan(text, pos, i, j, decide);
  }

  /** On the specification, a spliced token moves the cursor past the
      inserted text. */
  lemma ScanSplice(text: string, pos: nat, i: nat, j: nat, v: string, decide: string -> Resolution)
    requires pos <= |text|
    requires Find(text, Marker, pos) == Some(i) && Find(text, Close, i) == Some(j)
    requires i + |Marker| <= j && decide(text[i + |Marker|..j]) == Splice(v)
    ensures j < |text| && i + |v| <= |text[..i] + v + text[j + 1..]|
    ensures Then(text[..pos], Scan(text[pos..], decide)) ==
            Then((text[..i] + v + text[j + 1..])[..i + |v|],
                 Scan((text[..i] + v + text[j + 1..])[i + |v|..], decide))
  {
    ScanStep(text, pos, i, j, decide);
    SpliceKeepsScan(text, pos, i, j, v, decide);
  }

  /** On the specification, a raising decision ends the scan. */
  lemma ScanAbort(text: string, pos: nat, i: nat, j: nat, e: Error, decide: string -> Resolution)
    requires pos <= |text|
    requires Find(text, Marker, pos) == Some(i) && Find(text, Close, i) == Some(j)
    requires i + |Marker| <= j && decide(text[i + |Marker|..j]) == Abort(e)
    ensures Then(text[..pos], Scan(text[pos..], decide)) == Err(e)
  {
    ScanStep(text, pos, i, j, decide);
  }

  /** A raising decision ends the cursor loop. */
  lemma CursorAbortStep(text: string, pos: nat, i: nat, j: nat, decide: string -> Resolution)
    requires Find(text, Marker, pos) == Some(i) && Find(text, Close, i) == Some(j)
    requires i + |Marker| <= j
    requires decide(text[i + |Marker|..j]).Abort?
    ensures Cursor(text, pos, decide) == Err(decide(text[i + |Marker|..j]).error)
  {
  }

  /** A skipped token moves the cursor past its `}`. */
  lemma CursorSkipStep(text: string, pos: nat, i: nat, j: nat, decide: string -> Resolution)
    requires Find(text, Marker, pos) == Some(i) && Find(text, Close, i) == Some(j)
    requires i + |Marker| <= j
    requires decide(text[i + |Marker|..j]).Skip?
    ensures Cursor(text, pos, decide) == Cursor(text, j + 1, decide)
  {
  }

  /** A spliced token moves the cursor past the inserted text. */
  lemma CursorSpliceStep(text: string, pos: nat, i: nat, j: nat, v: string, decide: string -> Resolution)
    requires Find(text, Marker, pos) == Some(i) && Find(text, Close, i) == Some(j)
    requires i + |Marker| <= j
    requires decide(text[i + |Marker|..j]) == Splice(v)
    ensures Cursor(text, pos, decide) == Cursor(text[..i] + v + text[j + 1..], i + |v|, decide)
  {
  }

  /** Started at the beginning, the cursor loop computes `Scan`. */
  lemma CursorFromStart(s: string, decide: string -> Resolution)
    ensures Cursor(s, 0, decide) == Scan(s, decide)
  {
    CursorAgrees(s, 0, decide);
    assert s[..0] == "" && s[0..] == s;
    ThenEmpty(Scan(s, decide));
  }

  /** The loop shared by `replace_inserts_in_content` and
      `replace_inserts_in_content_plain`, which differ only in what they do
      with a token: from the cursor, find the next marker and the first `}`
      after it; a skipped token moves the cursor past its `}`, a spliced one
      is replaced and the cursor moves past the inserted text. */
  method ScanLoop(content: string, decide: string -> Resolution) returns (r: Result<string>)
    ensures r == Cursor(content, 0, decide)
  {
    var text := content;
    var startPos: nat := 0;
    while true
      invariant startPos <= |text|
      invariant Cursor(text, startPos, decide) == Cursor(content, 0, decide)
      decreases |text| - startPos
    {
      var startIdx := Find(text, Marker, startPos);
      if startIdx.None? {
        break;
      }
      var endIdx := Find(text, Close, startIdx.value);
      if endIdx.None? {
        break;
      }
      var i, j := startIdx.value, endIdx.value;
      CloseAfterMarker(text, i, j);
      var varName := text[i + |Marker|..j];
      match decide(varName)
      case Abort(e) =>
        CursorAbortStep(text, startPos, i, j, decide);
        return Err(e);
      case Skip =>
        CursorSkipStep(text, startPos, i, j, decide);
        startPos := j + 1;
      case Splice(value) =>
        CursorSpliceStep(text, startPos, i, j, value, decide);
        text := text[..i] + value + text[j + 1..];
        startPos := i + |value|;
    }
    r := Ok(text);
  }

  /** `replace_inserts_in_content`: every token whose key is a first-level
      entry becomes a hyperlink around the entry's value; a token whose key is
      absent stays as it is and the scan resumes after its `}`. */
  method ReplaceInserts(content: string, data: Data) returns (r: Result<string>)
    ensures r == Scan(content, Linked(data))
  {
    r := ScanLoop(content, Linked(data));
    CursorFromStart(content, Linked(data));
  }

  /** `replace_inserts_in_content_plain`: every token is replaced by the string
      its dotted key leads to; the first key that does not lead to a string
      raises, as the concatenation in the source does. */
  method ReplaceInsertsPlain(content: string, data: Data) returns (r: Result<string>)
    ensures r == Scan(content, Plain(data))
  {
    r := ScanLoop(content, Plain(data));
    CursorFromStart(content, Plain(data));
  }

  /** Text without a marker passes through a scanner unchanged. */
  lemma ScanNoMarker(s: string, decide: string -> Resolution)
    requires !Contains(s, Marker)
    ensures Scan(s, decide) == Ok(s)
  {
  }

  /** Text ahead of a token can be prefixed before or after the decision. */
  lemma ApplyPrefix(d: Resolution, p: string, before: string, token: string, rest: Result<string>)
    ensures Apply(d, p + before, token, rest) == Then(p, Apply(d, before, token, rest))
  {
    match d
    case Splice(v) =>
      ThenThen(p, before + v, rest);
      assert p + before + v == p + (before + v);
    case Skip =>
      ThenThen(p, before + token, rest);
      assert p + before + token == p + (before + token);
    case Abort(_) =>
  }

  /** Text in which no marker starts is never changed, and the scan of what
      follows it does not depend on it. */
  lemma ScanLocal(p: string, s: string, decide: string -> Resolution)
    requires forall k :: 0 <= k < |p| ==> !OccursAt(p + s, Marker, k)
    ensures Scan(p + s, decide) == Then(p, Scan(s, decide))
  {
    var ps := p + s;
    assert ps[0..] == ps && ps[..0] == "" && ps[..|p|] == p && ps[|p|..] == s;
    FindSkip(ps, Marker, 0, |p|);
    match Find(ps, Marker, |p|)
    case None =>
      ScanStopNoMarker(ps, 0, decide);
      ScanStopNoMarker(ps, |p|, decide);
    case Some(i) =>
      match Find(ps, Close, i)
      case None =>
        ScanStopNoClose(ps, 0, i, decide);
        ScanStopNoClose(ps, |p|, i, decide);
      case Some(j) =>
        ScanLocalToken(ps, |p|, i, j, decide);
  }

  /** Slices from the start of a text, split at `q`. */
  lemma PrefixSlices(s: string, q: nat, i: nat)
    requires q <= i <= |s|
    ensures s[0..] == s && s[0..i] == s[..q] + s[q..i]
  {
  }

  /** `ScanLocal` when a whole token follows the prefix `ps[..q]`. */
  lemma ScanLocalToken(ps: string, q: nat, i: nat, j: nat, decide: string -> Resolution)
    requires q <= |ps|
    requires Find(ps, Marker, 0) == Some(i) && Find(ps, Marker, q) == Some(i)
    requires Find(ps, Close, i) == Some(j)
    ensures Scan(ps, decide) == Then(ps[..q], Scan(ps[q..], decide))
  {
    PrefixSlices(ps, q, i);
    ScanStep(ps, 0, i, j, decide);
    ScanStep(ps, q, i, j, decide);
    ApplyPrefix(decide(ps[i + |Marker|..j]), ps[..q], ps[q..i], ps[i..j + 1], Scan(ps[j + 1..], decide));
  }

  /** One token `\INSERT{key}` after text in which no marker starts: the text
      before it is kept, the token is replaced (or kept, or the scan raises) as
      the scanner decides for `key`, and the text after the `}` is scanned on
      its own. A spliced value is never scanned again. */
  lemma ScanToken(pre: string, key: string, post: string, decide: string -> Resolution)
    requires forall k :: 0 <= k < |pre| ==> !OccursAt(pre + Marker + key + Close + post, Marker, k)
    requires '}' !in key
    ensures Scan(pre + Marker + key + Close + post, decide) ==
              Apply(decide(key), pre, Marker + key + Close, Scan(post, decide))
  {
    var t := Marker + key + Close + post;
    assert pre + Marker + key + Close + post == pre + t;
    ScanLocal(pre, t, decide);
    ScanLeadingToken(key, post, decide);
    ApplyPrefix(decide(key), pre, "", Marker + key + Close, Scan(post, decide));
    assert pre + "" == pre;
  }

  /** `ScanToken` without text before the token. */
  lemma ScanLeadingToken(key: string, post: string, decide: string -> Resolution)
    requires '}' !in key
    ensures Scan(Marker + key + Close + post, decide) ==
              Apply(decide(key), "", Marker + key + Close, Scan(post, decide))
  {
    var t := Marker + key + Close + post;
    var j := |Marker| + |key|;
    assert t[0..|Marker|] == Marker;
    assert Find(t, Marker, 0) == Some(0);
    CloseAfterKey(key, post);
    ScanFirstToken(t, 0, j, decide);
    assert t[|Marker|..j] == key;
    assert t[..0] == "";
    assert t[0..j + 1] == Marker + key + Close;
    assert t[j + 1..] == post;
  }

  /** The first `}` after a leading marker is the one that ends a key without
      `}`. */
  lemma CloseAfterKey(key: string, post: string)
    requires '}' !in key
    ensures Find(Marker + key + Close + post, Close, 0) == Some(|Marker| + |key|)
  {
    var t := Marker + key + Close + post;
    var j := |Marker| + |key|;
    assert t[j..j + 1] == Close;
    assert forall c :: 0 <= c < |Marker| ==> Marker[c] != '}';
    forall k | 0 <= k < j
      ensures !OccursAt(t, Close, k)
    {
      if k < |Marker| {
        assert t[k] == Marker[k];
      } else {
        assert t[k] == key[k - |Marker|];
      }
      assert k + 1 <= |t| && t[k..k + 1][0] == t[k];
    }
    FindSkip(t, Close, 0, j);
  }

  /** A scan that skips every key leaves every text as it is: unresolved
      tokens stay byte for byte. */
  lemma {:induction false} ScanAllSkipped(s: string, decide: string -> Resolution)
    requires forall k :: decide(k) == Skip
    ensures Scan(s, decide) == Ok(s)
    decreases |s|
  {
    match Find(s, Marker, 0)
    case None =>
    case Some(i) =>
      match Find(s, Close, i)
      case None =>
      case Some(j) =>
        CloseAfterMarker(s, i, j);
        ScanAllSkipped(s[j + 1..], decide);
        assert s[..i] + s[i..j + 1] + s[j + 1..] == s;
  }

  /** A hyperlink scan against an empty store leaves every text as it is. */
  lemma ScanEmptyStore(s: string)
    ensures Scan(s, Linked(map[])) == Ok(s)
  {
    forall k | true
      ensures Linked(map[])(k) == Skip
    {
      assert GetTomlKey(map[], k) == Ok(Absent);
    }
    ScanAllSkipped(s, Linked(map[]));
  }

  /** A value that itself holds the token that produced it is spliced once and
      not expanded again: the scan resumes after the inserted text. */
  lemma SelfReferenceNotRescanned()
    ensures var data := map["a" := Table(map["value" := Leaf("\\INSERT{a}")])];
            Scan("\\INSERT{a}", Linked(data)) == Ok(Hyperlink("\\INSERT{a}"))
  {
    var data := map["a" := Table(map["value" := Leaf("\\INSERT{a}")])];
    assert Linked(data)("a") == Splice(Hyperlink("\\INSERT{a}"));
    assert "" + Marker + "a" + Close + "" == "\\INSERT{a}";
    ScanToken("", "a", "", Linked(data));
    ScanNoMarker("", Linked(data));
    assert "" + Hyperlink("\\INSERT{a}") + "" == Hyperlink("\\INSERT{a}");
  }
}
