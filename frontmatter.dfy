/** The metadata header of a note: a block that opens with `---` on the first
    line and closes at the next line that starts with `---`. Two readers exist:
    the validating one in src/parser.ts and the unvalidated one in src/main.ts.
    Both hand the block's interior to a YAML decoder that is not part of this
    model; it is a parameter here, returning either a decoded value or the
    fact that it threw. */
module Frontmatter {
  import opened Strings

  /** A decoded YAML value, as the decoder hands it to JavaScript. Mappings keep
      their keys in document order; the decoder refuses duplicate keys. */
  datatype Yaml =
    | YNull
    | YBool(b: bool)
    | YNum(n: real)
    | YStr(s: string)
    | YList(items: seq<Yaml>)
    | YMap(entries: seq<(string, Yaml)>)

  /** Outcome of calling the decoder: it returns a value or throws. */
  datatype Decoded = Threw | Parsed(value: Yaml)

  const Opening: string := "---\n"
  const Closing: string := "\n---"

  /** The interior of the header block matched by `^---\n([\s\S]*?)\n---`: the
      text after the opening line up to the first later `\n---`. */
  function HeaderBody(content: string): (r: Option<string>)
    ensures r.Some? ==> 8 + |r.value| <= |content|
  {
    if StartsWith(content, Opening) then
      match IndexOf(content, Closing, 4)
      case Some(k) => Some(content[4..k])
      case None => None
    else None
  }

  /** The body is the text between the opening line and the first `\n---`
      after it; there is none without the opening line or without a later
      `\n---`. */
  lemma HeaderBodySpec(content: string)
    ensures var r := HeaderBody(content);
            && (r.Some? ==> content == Opening + r.value + Closing + content[8 + |r.value|..])
            && (r.Some? ==> r.value == content[4..4 + |r.value|] && OccursAt(content, Closing, 4 + |r.value|))
            && (r.Some? ==> forall j :: 4 <= j < 4 + |r.value| ==> !OccursAt(content, Closing, j))
            && (r.None? ==> !StartsWith(content, Opening) || forall j :: 4 <= j ==> !OccursAt(content, Closing, j))
  {
    if StartsWith(content, Opening) {
      IndexOfSpec(content, Closing, 4);
      var found := IndexOf(content, Closing, 4);
      if found.Some? {
        var k := found.value;
        assert content[..4] == Opening;
        assert content[k..k + 4] == Closing;
        assert content == content[..4] + content[4..k] + content[k..k + 4] + content[k + 4..];
      }
    }
  }

  lemma ClosingShape(c: string, n: nat)
    requires OccursAt(c, Closing, n)
    ensures c[n] == '\n' && c[n + 1] == '-' && c[n + 2] == '-' && c[n + 3] == '-'
  {
    assert c[n..n + 4] == Closing;
  }

  /** A block written as opening line, body and closing line is read back with
      exactly that body, whatever follows it, as long as the body itself holds
      no `\n---`. */
  lemma HeaderOfBlock(body: string, rest: string)
    requires forall j :: !OccursAt(body, Closing, j)
    ensures HeaderBody(Opening + body + Closing + rest) == Some(body)
  {
    var c := Opening + body + Closing + rest;
    var k := 4 + |body|;
    assert c[..4] == Opening;
    assert c[k..k + 4] == Closing;
    IndexOfSpec(c, Closing, 4);
    var found := IndexOf(c, Closing, 4);
    assert OccursAt(c, Closing, k);
    var n := found.value;
    if n < k {
      ClosingShape(c, n);
      ClosingShape(c, k);
      assert c[4..k] == body;
      assert c[n..n + 4] == body[n - 4..n];
      assert OccursAt(body, Closing, n - 4);
      assert false;
    }
    assert c[4..k] == body;
  }

  /** Property lookup `yaml?.key`: the value stored under `key` in a mapping;
      undefined (None) for anything else. */
  function Get(v: Yaml, key: string): (r: Option<Yaml>)
    ensures r.Some? ==> v.YMap? && (key, r.value) in v.entries
    ensures v.YMap? && (exists e :: e in v.entries && e.0 == key) ==> r.Some?
  {
    if v.YMap? then Lookup(v.entries, key) else None
  }

  function Lookup(entries: seq<(string, Yaml)>, key: string): (r: Option<Yaml>)
    ensures r.Some? ==> (key, r.value) in entries
    ensures r.None? ==> forall e :: e in entries ==> e.0 != key
  {
    if |entries| == 0 then None
    else if entries[0].0 == key then Some(entries[0].1)
    else Lookup(entries[1..], key)
  }

  /** JavaScript truthiness of a property that may be undefined. */
  predicate Truthy(v: Option<Yaml>) {
    match v
    case None => false
    case Some(YNull) => false
    case Some(YBool(b)) => b
    case Some(YNum(n)) => n != 0.0
    case Some(YStr(s)) => s != ""
    case Some(_) => true
  }

  /** `typeof v === 'object'`: true of null, arrays and mappings. */
  predicate IsObject(v: Option<Yaml>) {
    v.Some? && (v.value.YNull? || v.value.YList? || v.value.YMap?)
  }

  datatype AnkiFrontmatter = AnkiFrontmatter(ankiDeck: Yaml, ankiNoteType: Yaml, ankiFieldMappings: Yaml)

  /** The acceptance test of src/parser.ts: the decoded header is an object whose
      `ankiDeck`, `ankiNoteType` and `ankiFieldMappings` are truthy and whose
      `ankiFieldMappings` is itself an object. */
  predicate IsAnkiHeader(y: Yaml) {
    && IsObject(Some(y))
    && Truthy(Get(y, "ankiDeck"))
    && Truthy(Get(y, "ankiNoteType"))
    && Truthy(Get(y, "ankiFieldMappings"))
    && IsObject(Get(y, "ankiFieldMappings"))
  }

  /** `parseFrontmatter` of src/parser.ts. */
  function ParseFrontmatter(content: string, parseYaml: string -> Decoded): (r: Option<AnkiFrontmatter>)
    ensures HeaderBody(content).None? ==> r.None?
    ensures HeaderBody(content).Some? && parseYaml(HeaderBody(content).value).Threw? ==> r.None?
    ensures r.Some? <==>
              HeaderBody(content).Some? && parseYaml(HeaderBody(content).value).Parsed?
              && IsAnkiHeader(parseYaml(HeaderBody(content).value).value)
    ensures r.Some? ==>
              var y := parseYaml(HeaderBody(content).value).value;
              && Get(y, "ankiDeck") == Some(r.value.ankiDeck)
              && Get(y, "ankiNoteType") == Some(r.value.ankiNoteType)
              && Get(y, "ankiFieldMappings") == Some(r.value.ankiFieldMappings)
              && !r.value.ankiFieldMappings.YNull?
  {
    match HeaderBody(content)
    case None => None
    case Some(body) =>
      match parseYaml(body)
      case Threw => None
      case Parsed(y) =>
        if IsAnkiHeader(y) then
          Some(AnkiFrontmatter(Get(y, "ankiDeck").value, Get(y, "ankiNoteType").value,
                               Get(y, "ankiFieldMappings").value))
        else None
  }

  /** `parseFrontmatter` of src/main.ts: the decoded header, unvalidated; None
      when there is no block or the decoder throws. */
  function ParseFrontmatterUnchecked(content: string, parseYaml: string -> Decoded): (r: Option<Yaml>)
    ensures r.Some? <==> HeaderBody(content).Some? && parseYaml(HeaderBody(content).value).Parsed?
    ensures r.Some? ==> r.value == parseYaml(HeaderBody(content).value).value
  {
    match HeaderBody(content)
    case None => None
    case Some(body) =>
      match parseYaml(body)
      case Threw => None
      case Parsed(y) => Some(y)
  }

  /** The two readers agree: whenever src/parser.ts accepts a header, src/main.ts
      returns the decoded object it was read from; whenever src/main.ts finds
      nothing, neither does src/parser.ts. */
  lemma ReadersAgree(content: string, parseYaml: string -> Decoded)
    ensures ParseFrontmatterUnchecked(content, parseYaml).None? ==> ParseFrontmatter(content, parseYaml).None?
    ensures ParseFrontmatter(content, parseYaml).Some? ==>
              var y := ParseFrontmatterUnchecked(content, parseYaml);
              && y.Some? && IsAnkiHeader(y.value)
              && ParseFrontmatter(content, parseYaml).value ==
                 AnkiFrontmatter(Get(y.value, "ankiDeck").value, Get(y.value, "ankiNoteType").value,
                                 Get(y.value, "ankiFieldMappings").value)
  {
  }

  /** A header closed immediately (`---` followed directly by `---`) is no
      block at all: the closing `\n---` must start after the opening line, so
      unless a later line starts with `---` there is no header. */
  lemma EmptyHeaderIsAbsent(rest: string, parseYaml: string -> Decoded)
    requires forall j :: !OccursAt(rest, Closing, j)
    ensures ParseFrontmatter("---\n---" + rest, parseYaml).None?
  {
    var c := "---\n---" + rest;
    HeaderBodySpec(c);
    forall n | 4 <= n && OccursAt(c, Closing, n) ensures n >= 7 && OccursAt(rest, Closing, n - 7) {
      ClosingShifts(rest, n);
    }
  }

  /** A closing line found after the opening line of `---\n---` + `rest`
      lies wholly inside `rest`. */
  lemma ClosingShifts(rest: string, n: nat)
    requires 4 <= n && OccursAt("---\n---" + rest, Closing, n)
    ensures n >= 7 && OccursAt(rest, Closing, n - 7)
  {
    var c := "---\n---" + rest;
    ClosingShape(c, n);
    assert c[4] == '-' && c[5] == '-' && c[6] == '-';
    assert c[n..n + 4] == rest[n - 7..n - 3];
  }

  /** Without the opening line there is no header, whatever the text says. */
  lemma NoOpeningNoHeader(content: string, parseYaml: string -> Decoded)
    requires !StartsWith(content, Opening)
    ensures ParseFrontmatter(content, parseYaml).None?
    ensures ParseFrontmatterUnchecked(content, parseYaml).None?
  {
    HeaderBodySpec(content);
  }

  /** The note of the test suite that has its header lines but no `---`
      markers around them. */
  lemma MissingMarkersIsAbsent(parseYaml: string -> Decoded)
    ensures ParseFrontmatter("ankiDeck: " + "VN Study List 1\nankiNoteType: Vietnamese", parseYaml).None?
  {
    var content := "ankiDeck: " + "VN Study List 1\nankiNoteType: Vietnamese";
    assert content[0] == 'a';
    NoOpeningNoHeader(content, parseYaml);
  }

  /** A mapping given as a YAML list still passes the `typeof === 'object'`
      test of src/parser.ts, but a scalar does not. */
  lemma ListMappingAccepted(body: string, rest: string, parseYaml: string -> Decoded, deck: string, noteType: string)
    requires forall j :: !OccursAt(body, Closing, j)
    requires deck != "" && noteType != ""
    requires parseYaml(body) == Parsed(YMap([("ankiDeck", YStr(deck)), ("ankiNoteType", YStr(noteType)),
                                             ("ankiFieldMappings", YList([]))]))
    ensures ParseFrontmatter(Opening + body + Closing + rest, parseYaml)
            == Some(AnkiFrontmatter(YStr(deck), YStr(noteType), YList([])))
  {
    HeaderOfBlock(body, rest);
    var entries := [("ankiDeck", YStr(deck)), ("ankiNoteType", YStr(noteType)), ("ankiFieldMappings", YList([]))];
    assert Lookup(entries, "ankiDeck") == Some(YStr(deck));
    assert Lookup(entries[1..], "ankiNoteType") == Some(YStr(noteType));
    assert Lookup(entries[1..][1..], "ankiFieldMappings") == Some(YList([]));
  }
}
