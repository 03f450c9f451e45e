/** `parseContent` and `convertAllMarkdownToHtml` of src/parser.ts: the field
    mapping is validated, the metadata header is cut off, the labelled runs
    are extracted into entries, and every value is converted from Markdown to
    HTML. A field mapping is a JavaScript object from document labels to note
    fields; it is modelled as its list of entries in key order. */
module Parser {
  import opened Strings
  import opened LabelPattern
  import opened Extraction
  import opened Inline
  import opened Markdown

  type Mapping = seq<(string, string)>

  /** The two errors `parseContent` throws. */
  datatype ParseError =
    | InvalidFieldMappings(invalid: seq<string>)
    | NoFieldMappings

  datatype Outcome = Ok(entries: seq<Entry>) | Failed(error: ParseError)

  // ---------------------------------------------------------------------------
  // Validation

  /** `Object.keys(fieldMappings)`. */
  function Keys(m: Mapping): (r: seq<string>)
    ensures |r| == |m| && forall i :: 0 <= i < |m| ==> r[i] == m[i].0
  {
    seq(|m|, i requires 0 <= i < |m| => m[i].0)
  }

  /** `Object.values(fieldMappings).filter(f => !availableFields.includes(f))`. */
  function InvalidTargets(m: Mapping, available: seq<string>): seq<string> {
    if |m| == 0 then []
    else (if m[0].1 in available then [] else [m[0].1]) + InvalidTargets(m[1..], available)
  }

  /** The invalid targets are exactly the mapped fields missing from the note
      type, each listed once per mapping entry, in mapping order. */
  lemma {:induction false} InvalidTargetsSpec(m: Mapping, available: seq<string>)
    ensures forall f :: f in InvalidTargets(m, available) <==> f !in available && exists i :: 0 <= i < |m| && m[i].1 == f
    ensures |InvalidTargets(m, available)| == 0 <==> forall i :: 0 <= i < |m| ==> m[i].1 in available
  {
    if |m| > 0 {
      InvalidTargetsSpec(m[1..], available);
      var head: seq<string> := if m[0].1 in available then [] else [m[0].1];
      assert InvalidTargets(m, available) == head + InvalidTargets(m[1..], available);
      forall f ensures f in InvalidTargets(m, available) <==> f !in available && exists i :: 0 <= i < |m| && m[i].1 == f {
        if f !in available && (exists i :: 0 <= i < |m| && m[i].1 == f) {
          var i :| 0 <= i < |m| && m[i].1 == f;
          if i > 0 {
            assert m[1..][i - 1].1 == f;
          }
        }
        if f in InvalidTargets(m[1..], available) {
          var i :| 0 <= i < |m[1..]| && m[1..][i].1 == f;
          assert m[i + 1].1 == f;
        }
      }
      if forall i :: 0 <= i < |m[1..]| ==> m[1..][i].1 in available {
        forall i | 0 <= i < |m| ensures m[i].1 in available || (i == 0 && |head| > 0) {
          if i > 0 {
            assert m[i] == m[1..][i - 1];
          }
        }
      } else {
        var i :| 0 <= i < |m[1..]| && m[1..][i].1 !in available;
        assert m[i + 1].1 !in available;
      }
    }
  }

  // ---------------------------------------------------------------------------
  // The metadata header

  const HeaderClose: string := "\n---\n"

  /** `content.replace(/^---\n[\s\S]*?\n---\n/, "")`: when the text opens with
      `---` on a line of its own, everything up to and including the first
      later line `---` and its line break goes. */
  function StripHeader(content: string): (r: string)
    ensures |r| <= |content| && r == content[|content| - |r|..]
  {
    if StartsWith(content, "---\n") then
      match IndexOf(content, HeaderClose, 4)
      case Some(k) => content[k + 5..]
      case None => content
    else content
  }

  /** A text that does not open with the header line is left alone, and so is
      one whose header is never closed. */
  lemma StripHeaderNoHeader(content: string)
    requires !StartsWith(content, "---\n") || forall j :: 4 <= j ==> !OccursAt(content, HeaderClose, j)
    ensures StripHeader(content) == content
  {
    if StartsWith(content, "---\n") {
      assert 4 <= |content|;
      IndexOfSpec(content, HeaderClose, 4);
      assert IndexOf(content, HeaderClose, 4).None?;
    }
  }

  /** A header block written as opening line, body and closing line goes
      completely and leaves exactly what follows, as long as no closing line
      starts inside the body. */
  lemma StripHeaderOfBlock(body: string, rest: string)
    requires forall j: nat :: j < |body| ==> !OccursAt(body + HeaderClose, HeaderClose, j)
    ensures StripHeader("---\n" + body + HeaderClose + rest) == rest
  {
    var c := "---\n" + body + HeaderClose + rest;
    var k := 4 + |body|;
    assert c[..4] == "---\n";
    assert c[k..k + 5] == HeaderClose;
    IndexOfSpec(c, HeaderClose, 4);
    assert OccursAt(c, HeaderClose, k);
    var r := IndexOf(c, HeaderClose, 4);
    assert r.Some? && r.value <= k;
    if r.value < k {
      CloseInBody(body, rest, r.value);
    }
    assert c[k + 5..] == rest;
  }

  /** A closing line that starts inside the body of such a block is one that
      starts inside the body followed by the closing line alone. */
  lemma CloseInBody(body: string, rest: string, p: nat)
    requires 4 <= p < 4 + |body| && OccursAt("---\n" + body + HeaderClose + rest, HeaderClose, p)
    ensures OccursAt(body + HeaderClose, HeaderClose, p - 4)
  {
    var c := "---\n" + body + HeaderClose + rest;
    var w := body + HeaderClose;
    assert c[4..9 + |body|] == w;
    assert c[p..p + 5] == w[p - 4..p + 1];
  }

  // ---------------------------------------------------------------------------
  // Conversion of every value

  /** One entry with every value converted. */
  function ConvertEntry(e: Entry): (r: Entry)
    ensures r.Keys == e.Keys
  {
    map k | k in e :: Html(e[k])
  }

  /** `convertAllMarkdownToHtml`: every entry converted, in order. */
  function ConvertAll(entries: seq<Entry>): (r: seq<Entry>)
    ensures |r| == |entries|
  {
    seq(|entries|, i requires 0 <= i < |entries| => ConvertEntry(entries[i]))
  }

  /** The `for ... in` loop that converts one entry, key by key. */
  method ConvertEntryByKeys(entry: Entry) returns (converted: Entry)
    ensures converted == ConvertEntry(entry)
  {
    converted := map[];
    var keys := entry.Keys;
    while keys != {}
      invariant keys <= entry.Keys
      invariant converted.Keys == entry.Keys - keys
      invariant forall k :: k in converted ==> converted[k] == Html(entry[k])
      decreases keys
    {
      var key :| key in keys;
      var html := MarkdownToHtml(entry[key]);
      converted := converted[key := html];
      keys := keys - {key};
    }
    ConvertedEntry(entry, converted);
  }

  /** A map with the entry's keys holding each value's HTML is the converted
      entry. */
  lemma ConvertedEntry(entry: Entry, converted: Entry)
    requires converted.Keys == entry.Keys
    requires forall k :: k in converted ==> converted[k] == Html(entry[k])
    ensures converted == ConvertEntry(entry)
  {
  }

  /** `entries.map(...)` of `convertAllMarkdownToHtml`. */
  method ConvertAllMarkdownToHtml(entries: seq<Entry>) returns (result: seq<Entry>)
    ensures result == ConvertAll(entries)
  {
    result := [];
    var i := 0;
    while i < |entries|
      invariant 0 <= i <= |entries|
      invariant |result| == i && forall k :: 0 <= k < i ==> result[k] == ConvertEntry(entries[k])
    {
      var converted := ConvertEntryByKeys(entries[i]);
      result := result + [converted];
      i := i + 1;
    }
  }

  /** Every converted value is trimmed and holds no typographic apostrophe. */
  lemma ConvertedValuesAreClean(entries: seq<Entry>)
    ensures forall e, k :: e in ConvertAll(entries) && k in e ==> IsTrimmed(e[k]) && '’' !in e[k]
  {
    forall e, k | e in ConvertAll(entries) && k in e ensures IsTrimmed(e[k]) && '’' !in e[k] {
      var i :| 0 <= i < |entries| && e == ConvertEntry(entries[i]);
      HtmlIsTrimmedAndStraight(entries[i][k]);
    }
  }

  // ---------------------------------------------------------------------------
  // parseContent

  /** What `parseContent` returns or throws. */
  function ParsedContent(content: string, m: Mapping, available: seq<string>): Outcome {
    var invalid := InvalidTargets(m, available);
    if |invalid| > 0 then Failed(InvalidFieldMappings(invalid))
    else if |m| == 0 then Failed(NoFieldMappings)
    else Ok(ConvertAll(ExtractFields(Keys(m), StripHeader(content))))
  }

  /** `parseContent`. */
  method ParseContent(content: string, m: Mapping, available: seq<string>) returns (r: Outcome)
    ensures r == ParsedContent(content, m, available)
  {
    var invalid := InvalidTargets(m, available);
    if |invalid| > 0 {
      return Failed(InvalidFieldMappings(invalid));
    }
    var noteFields := Keys(m);
    if |noteFields| == 0 {
      return Failed(NoFieldMappings);
    }
    var body := StripHeader(content);
    var fieldMap := ExtractFieldsFromText(noteFields, body);
    var result := ConvertAllMarkdownToHtml(fieldMap);
    return Ok(result);
  }

  /** The mapping is checked before anything else: an unknown target field
      fails the call whatever the content, an empty mapping fails it only
      when every target is known, and otherwise the call succeeds. */
  lemma ParseErrors(content: string, m: Mapping, available: seq<string>)
    ensures var r := ParsedContent(content, m, available);
            && (r.Failed? && r.error.InvalidFieldMappings? <==> exists i :: 0 <= i < |m| && m[i].1 !in available)
            && (r.Failed? && r.error.NoFieldMappings? <==> |m| == 0)
            && (r.Ok? <==> |m| > 0 && forall i :: 0 <= i < |m| ==> m[i].1 in available)
  {
    InvalidTargetsSpec(m, available);
  }

  /** Conversion keeps the keys: a key of a converted entry is a key of the
      entry it came from. */
  lemma ConvertedKeys(entries: seq<Entry>, keys: seq<string>)
    requires forall e, k :: e in entries && k in e ==> k in keys
    ensures forall e, k :: e in ConvertAll(entries) && k in e ==> k in keys
  {
    forall e, k | e in ConvertAll(entries) && k in e ensures k in keys {
      var n :| 0 <= n < |entries| && e == ConvertEntry(entries[n]);
      assert k in entries[n];
    }
  }

  /** When the call succeeds, every key of every entry is one of the mapping's
      keys (labels non-empty and without stars), and every value is trimmed
      HTML with straight apostrophes. */
  lemma ParsedEntriesShape(content: string, m: Mapping, available: seq<string>)
    requires forall i :: 0 <= i < |m| ==> |m[i].0| > 0 && StarFree(m[i].0)
    requires ParsedContent(content, m, available).Ok?
    ensures forall e, k :: e in ParsedContent(content, m, available).entries && k in e ==>
              k in Keys(m) && IsTrimmed(e[k]) && '’' !in e[k]
  {
    var keys := Keys(m);
    var extracted := ExtractFields(keys, StripHeader(content));
    ExtractedKeysAreLabels(keys, StripHeader(content));
    ConvertedValuesAreClean(extracted);
    ConvertedKeys(extracted, keys);
  }
}
