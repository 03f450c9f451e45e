# Anki flashcard extraction and sync, modelled in Dafny

This project models the core of the Obsidian plugin *obsidian-anki-sync*. The
plugin turns a Markdown note into Anki flashcards and pushes them to Anki
through AnkiConnect. The model covers five parts.

- **The header and the extractor of `src/parser.ts`.**
  - `parseFrontmatter` reads the leading `---` block and checks that it names
    a deck, a note type and a field mapping.
  - `parseContent` checks the mapping against the note type's fields and cuts
    off the header.
  - `extractFieldsFromText` finds every `Label: value` run and groups the runs
    into entries; each occurrence of the first declared label opens a new one.
  - `markdownToHtml` turns every value into HTML.
- **Scanners instead of regular expressions.** The regular expressions are
  written out as explicit scanners:
  - a label-hit function that tries labels in declaration order with up to
    two stars on either side;
  - a value scanner that stops at the next label hit or at a line terminator
    other than `\n`;
  - a grouping pass;
  - the two-flag line state machine of `markdownToHtml`;
  - a lazy-delimiter rewriter for bold and italic.
- **The parser the sync command calls, `parseContent` in `src/main.ts`.** It
  cuts the note before every `### **Front:` heading and reads five fixed fields
  from each piece. It keeps a card when its front and back are non-empty and
  collapses the white space of every value.
- **The upsert planning of `syncFlashcards` (`src/anki-service.ts`) and
  `sendToAnki` (`src/main.ts`).** Existing notes are indexed by their `Front`
  value. Each card becomes an update or a new note, and the writes are sent in
  at most two `multi` batches after the deck check of `ensureDeckExists`.
- **The field highlighting of `src/field-decorator.ts`.**
  - `FieldDecorator` is a class with the colour cache and the counter of the
    hue generator.
  - The editor scan reports every occurrence of each `Label:` marker in the
    visible ranges, overlapping ones included, sorted by position.
  - The text-node rewrite splits a rendered text at each marker into plain
    fragments and highlighted spans.
  - The mappings are `Object.entries` of the header's `ankiFieldMappings`,
    each value turned into text as a template literal does. The decorator
    colours the key and highlights the value followed by `:`. That is the
    reverse of `parseContent`, which looks for the keys in the document
    (src/parser.ts:211); the model keeps both readings as written.

Loops of the source are methods with loop invariants, each proved equal to a
specification function. The properties the source promises are lemmas about
those functions: round trips, partitions, invariants, leftmost matches and
exhaustive scans.

Where the tests and the code disagree, the model follows the code:

- **Bad field mappings.** tests/parser.test.ts:108-124 expects `parseContent`
  to return an empty list for an unknown target field and for an empty
  mapping. The code at src/parser.ts:201-215 throws in both cases. The model
  returns the two errors (`Parser.ParseError`).
- **Entry keys.** Entries are keyed by the document labels, which are the
  mapping's *keys*. The mapped Anki field names are never used
  (src/parser.ts:211, 57-60).
- **No front/back filter.** `parseContent` of src/parser.ts applies no
  Front/Back filter.

## Model

| member | source | states |
|---|---|---|
| Strings.TrimSpec | src/parser.ts:58 | `trim()` leaves no white space at either end; the result is the infix of the input after its leading white space, followed by white space only |
| Strings.TrimOfTrimmed | src/parser.ts:78 | trimming a text whose ends are not white space returns it unchanged |
| Strings.IndexOfSpec | src/field-decorator.ts:74 | `indexOf(pat, from)` returns the first occurrence at or after `from`; it finds nothing exactly when there is no occurrence |
| Frontmatter.HeaderBodySpec | src/parser.ts:10-11 | the header body is the text between `---\n` and the first later `\n---`; there is none without the opening line or without a closing `\n---` |
| Frontmatter.HeaderOfBlock | src/parser.ts:10 | a block written as opening line, body and closing line reads back exactly that body whatever follows, provided the body holds no `\n---` |
| Frontmatter.Get | src/parser.ts:18-21 | property access `yaml?.key` returns a value only for a mapping that stores that key, and always finds a stored key |
| Frontmatter.ParseFrontmatter | src/parser.ts:9-34 | returns nothing without a header block or when decoding throws; otherwise returns a result exactly when deck and note type are truthy and the mapping is a truthy object; the three fields come back unchanged |
| Frontmatter.ParseFrontmatterUnchecked | src/main.ts:183-193 | returns the decoded header unvalidated, and nothing exactly when there is no block or decoding throws |
| Frontmatter.ReadersAgree | src/main.ts:183-193 | when the unvalidated reader finds nothing, the validating one finds nothing; when the validating one accepts a header, it is the unvalidated reader's value with its three fields |
| Frontmatter.EmptyHeaderIsAbsent | tests/parser.test.ts:47-53 | `---\n---` followed by text with no `\n---` in it is no header at all |
| Frontmatter.NoOpeningNoHeader | src/parser.ts:10-11 | a text that does not open with `---\n` gives no header to either reader, whatever the decoder does |
| Frontmatter.MissingMarkersIsAbsent | tests/parser.test.ts:40-45 | the test's note `ankiDeck: VN Study List 1\nankiNoteType: Vietnamese`, written without `---` markers, gives no header |
| Frontmatter.ListMappingAccepted | src/parser.ts:20-21 | a field mapping written as a YAML list passes the `typeof === 'object'` test and is returned as it is |
| LabelPattern.TryAfterSpec | src/parser.ts:41 | the trailing `\*{0,2}` backtracks from more to fewer stars, and fails only when no count up to the start fits |
| LabelPattern.TryBeforeSpec | src/parser.ts:41 | the leading `\*{0,2}` backtracks from more to fewer stars, each with up to two trailing ones; it fails only when no combination fits |
| LabelPattern.HitFromSpec | src/parser.ts:41-45 | the label alternation from a given label on picks the first label that fits, and none before it fits |
| LabelPattern.HitAtSpec | src/parser.ts:41-45 | a label hit is the first declared label that fits at the position with at most two stars on each side and a colon; there is no hit exactly when no label fits |
| LabelPattern.StripStars | src/parser.ts:57 | `.replace(/^\**\|\**$/g, '')` removes exactly the leading and trailing runs of stars and leaves an infix that neither starts nor ends with a star |
| LabelPattern.StripStarsOfHit | src/parser.ts:56-57 | a non-empty, star-free label matched with stars around it reads back as the label itself |
| Scanner.ValueEndSpec | src/parser.ts:45 | the value group consumes `\n` and every character that starts no label hit and is no line terminator, and stops at the first one that does not qualify |
| Scanner.NextHitIsLeftmost | src/parser.ts:45-49 | the search for the next match finds the leftmost label hit; when it finds none there is none |
| Scanner.Scan | src/parser.ts:49 | every match lies in the text after the starting point; the scan is empty exactly when no label hit remains, and otherwise starts at the next hit |
| Scanner.ScanTail | src/parser.ts:49 | after the first match, `matchAll` goes on where that match's value ended |
| Scanner.MatchAt | src/parser.ts:45 | a match consists of the label hit, the white space after the colon, and the value group up to where it stops |
| Scanner.PairsOf | src/parser.ts:55-58 | there is one (label, value) pair per match, in order: the label with its stars removed and the value trimmed |
| ScannerFacts.ScanMatches | src/parser.ts:44-49 | every match the scan returns is a match of the pattern |
| ScannerFacts.ScanIsLeftmost | src/parser.ts:49 | each match starts at the first label hit at or after the end of the previous match |
| ScannerFacts.ScanIsExhaustive | src/parser.ts:49 | after the last match no label hit remains |
| ScannerFacts.PairLabelsAreDeclared | src/parser.ts:56-57 | with non-empty, star-free labels, every label read back is a declared one |
| ScannerFacts.NoHitNoPairs | src/parser.ts:49-52 | a text without any label hit gives no pair |
| Extraction.Split | src/parser.ts:62-67 | the pairs are cut into groups, none of them when there is no pair |
| Extraction.SplitFlattens | src/parser.ts:55-68 | the groups put back together are exactly the pairs, in order |
| Extraction.AddPairKeepsWellCut | src/parser.ts:60-67 | adding one pair keeps every group non-empty, keeps the first label at the head of each later group, and keeps it out of every group's tail |
| Extraction.SplitIsWellCut | src/parser.ts:62-67 | a group closes exactly before a pair that carries the first label: every group is non-empty, every later group starts with that label, and no group holds it past its head |
| Extraction.Fold | src/parser.ts:60 | an entry's keys are exactly the labels of its group |
| Extraction.FoldLastWins | src/parser.ts:60 | within one entry a repeated label keeps the value of its last occurrence |
| Extraction.FoldEachSpec | src/parser.ts:52-68 | entry `k` is built from group `k` |
| Extraction.GroupEntries | src/parser.ts:52-68 | the `forEach` that fills `currentEntry` and pushes it at the last match or before a match of the first label yields one entry per group |
| Extraction.GroupShape | src/parser.ts:49-68 | there are no entries exactly when there are no matches, and no entry is empty |
| Extraction.DropTrailingDashSpec | src/parser.ts:77 | `.replace(/[-]\s*$/g, '')` cuts off a `-` followed by white space only, together with everything after it; without such a `-` the text stays |
| Extraction.CleanValueIsTrimmed | src/parser.ts:75-78 | a cleaned value has no white space at either end |
| Extraction.CleanValueKeepsCleanText | src/parser.ts:75-78 | a trimmed value with no star at either end and no trailing dash is left as it is |
| Extraction.BackBeforeBulletCleaned | tests/parser.test.ts:126-141 | the value captured after `**Back:**` before a `-   Usage:` bullet, `** Xin chào\n-   `, is cleaned to `Xin chào` |
| Extraction.CleanEntry | src/parser.ts:72-81 | cleaning keeps an entry's keys |
| Extraction.CleanAll | src/parser.ts:70-82 | entry `k` of the result is entry `k` of the input, cleaned |
| Extraction.CleanEntryByKeys | src/parser.ts:72-80 | the `for ... in` loop builds the entry with the same keys and every value cleaned |
| Extraction.CleanEntries | src/parser.ts:70-82 | the `map` cleans every entry, in order |
| Extraction.ExtractFieldsFromText | src/parser.ts:39-83 | returns the cleaned entries of the grouped matches |
| Extraction.ExtractedKeysAreLabels | src/parser.ts:56-60 | with non-empty, star-free labels, every key of every entry is one of the declared labels |
| Extraction.NoLabelNoEntries | src/parser.ts:49-68 | a text without any label hit gives no entry |
| Inline.RunEndSpec | src/parser.ts:176 | the lazy `(.*?)D` stops at the first occurrence of `D`; it fails exactly when a line terminator comes before any occurrence |
| Inline.MatchRunSpec | src/parser.ts:176-178 | a successful `D(.*?)D` match has the delimiter on both sides of its run |
| Inline.DelimitedCovers | src/parser.ts:176-178 | the segments of a global replace, written back with the delimiter around each run, give the text back |
| Inline.DelimitedRunsAreLazy | src/parser.ts:176-178 | every rewritten run holds no line terminator and no delimiter |
| Inline.NoDelimiterKept | src/parser.ts:176-178 | a text in which the delimiter never occurs comes through the replace unchanged |
| Inline.Straighten | src/parser.ts:180 | `.replace(/’/g, "'")` keeps the length, keeps every other character, and leaves no `’` |
| Markdown.SplitLines | src/parser.ts:86 | `split('\n')` gives at least one line, and no line holds a `\n` |
| Markdown.JoinSplitLines | src/parser.ts:86 | joining the lines with `\n` gives the text back |
| Markdown.SplitJoinLines | src/parser.ts:86 | splitting lines joined with `\n` gives the lines back, when none holds a `\n` |
| Markdown.ContEndSpec | src/parser.ts:127-132 | the lines taken after an item all continue it (not blank, not an item, not `Letters:`); the line that ends the run does not |
| Markdown.Turn | src/parser.ts:95-168 | each turn of the loop moves past the current line and stays within the lines |
| Markdown.AppendContinuations | src/parser.ts:127-132 | the inner `while` stops where the continuation run ends and appends `' ' + line.trim()` for each line in the run |
| Markdown.AppendItem | src/parser.ts:124-133 | one item appends `  <li>`, its text, its continuation lines and `</li>\n`, and resumes after the run |
| Markdown.CloseLists | src/parser.ts:101-108 | appends `</ol>` when an ordered list is open, then `</ul>` when an unordered one is, and nothing else; the flags are cleared by the caller (Markdown.LoopBody) |
| Markdown.OpenOrderedList | src/parser.ts:114-122 | before a numbered item an open `<ul>` is closed and an `<ol>` opened, unless an `<ol>` is already open; the flags never both hold |
| Markdown.OpenUnorderedList | src/parser.ts:137-145 | before a bulleted item an open `<ol>` is closed and a `<ul>` opened, unless a `<ul>` is already open; the flags never both hold |
| Markdown.ItemLine | src/parser.ts:112-155 | a list line appends what one turn of the specification appends and moves to the same next line with the same flags |
| Markdown.PlainLine | src/parser.ts:156-168 | any other non-blank line closes the open lists and is copied verbatim with `\n` |
| Markdown.LoopBody | src/parser.ts:95-169 | one pass of the `for` body appends exactly the specified turn's output and updates the index and the flags to its values |
| Markdown.BlocksAdvance | src/parser.ts:95-169 | what was emitted before a turn, then that turn's output, then the rest is all the output |
| Markdown.BlockPass | src/parser.ts:86-173 | the loop over the lines and the final closing of open lists produce the specified block output |
| Markdown.MarkdownToHtml | src/parser.ts:85-181 | the method returns the block output with bold substituted before italic, `’` straightened and the result trimmed |
| Markdown.HtmlIsTrimmedAndStraight | src/parser.ts:180 | the HTML has no white space at either end and no `’` |
| MarkdownFacts.ClosesRun | src/parser.ts:171-173 | closing the open lists leaves the output outside every list |
| MarkdownFacts.OpenOrderedRun | src/parser.ts:114-122 | before a numbered item the output stands inside an `<ol>` |
| MarkdownFacts.OpenUnorderedRun | src/parser.ts:137-145 | before a bulleted item the output stands inside a `<ul>` |
| MarkdownFacts.TurnWellNested | src/parser.ts:95-168 | one turn keeps `inOrderedList` and `inUnorderedList` from both holding, and its output is well placed between the states the flags describe |
| MarkdownFacts.BlocksWellNested | src/parser.ts:95-173 | from any line on, the output is well placed and ends outside every list |
| MarkdownFacts.ConversionWellNested | src/parser.ts:89-173 | the block pass never nests lists, never puts an item outside a list or a plain line inside one, and closes every list it opens |
| MarkdownFacts.TurnOutsideLists | src/parser.ts:99-110 | outside lists, a blank line emits nothing and any other line that is no list line emits itself with `\n` |
| MarkdownFacts.NoListLinesCopied | src/parser.ts:99-168 | without list lines the block pass drops blank lines and copies every other line verbatim with `\n` |
| MarkdownFacts.ListMarksHaveNoItems | src/parser.ts:101-145 | opening and closing lists emits no `<li>` |
| MarkdownFacts.SkipContinuations | src/parser.ts:127-132 | continuation lines are never list lines, so taking them skips no item |
| MarkdownFacts.TurnItems | src/parser.ts:112-155 | a turn emits one `<li>` for a list line and none otherwise, and skips only continuation lines |
| MarkdownFacts.OneItemPerListLine | src/parser.ts:112-155 | the block pass emits exactly one `<li>` per numbered or bulleted line |
| Parser.Keys | src/parser.ts:211 | `Object.keys` lists the mapping's labels in order |
| Parser.InvalidTargetsSpec | src/parser.ts:201-203 | the invalid targets are exactly the mapped fields missing from the note type; the list is empty exactly when every target is available |
| Parser.StripHeader | src/parser.ts:217-220 | removing the header leaves a suffix of the content |
| Parser.StripHeaderNoHeader | src/parser.ts:217-220 | a text that does not open with `---\n`, or whose header is never closed by `\n---\n`, is left alone |
| Parser.StripHeaderOfBlock | src/parser.ts:217-220 | a header block written as opening line, body and closing line is removed completely, leaving exactly what follows |
| Parser.ConvertEntry | src/parser.ts:186-191 | conversion keeps an entry's keys |
| Parser.ConvertAll | src/parser.ts:185-193 | the `map` gives one converted entry per entry |
| Parser.ConvertEntryByKeys | src/parser.ts:187-190 | the `for ... in` loop gives the entry with the same keys and every value converted to HTML |
| Parser.ConvertAllMarkdownToHtml | src/parser.ts:185-193 | every entry is converted, in order |
| Parser.ConvertedValuesAreClean | src/parser.ts:185-193 | every converted value is trimmed and has no `’` |
| Parser.ConvertedKeys | src/parser.ts:188-189 | conversion introduces no key |
| Parser.ParseContent | src/parser.ts:195-227 | `parseContent` returns the invalid-mapping error, the empty-mapping error, or the converted entries of the text without its header |
| Parser.ParseErrors | src/parser.ts:201-215 | an unknown target fails the call whatever the content; an empty mapping fails it only when no target is unknown; otherwise the call succeeds |
| Parser.ParsedEntriesShape | src/parser.ts:195-227 | on success every key is one of the mapping's keys and every value is trimmed HTML with no `’` |
| LegacyParser.ChunksSpec | src/main.ts:455 | the chunks concatenate back to the note; the note is cut immediately before every `### **Front:` and nowhere else; no chunk is empty |
| LegacyParser.FirstStopSpec | src/main.ts:472 | a lazy `[\s\S]*?` capture ends at the first position where its lookahead holds |
| LegacyParser.CaptureAfterSpec | src/main.ts:472-491 | a field capture starts right after the first occurrence of its lead text and ends at the first lookahead position; there is none exactly when the lead never occurs |
| LegacyParser.PlainContextSpec | src/main.ts:502 | the plain `Context:` capture skips the white space after the label and ends before the next `\n### ` or at the end |
| LegacyParser.FrontFromSpec | src/main.ts:463 | the front is the text of the leftmost heading closed by `**` on its line; it holds neither a line break nor `**`; there is none exactly when no heading is closed |
| LegacyParser.RawFieldsShape | src/main.ts:460-511 | only Front, Back, Usage, Example and Context are keys, every value is trimmed, and Front is present exactly when a closed heading is |
| LegacyParser.CollapseSpacesSpec | src/main.ts:521 | after `.replace(/\s+/g, ' ')` the only white space left is single spaces, and text is kept |
| LegacyParser.CollapseNewlinesKeepsText | src/main.ts:520 | `.replace(/\n+/g, ' ')` removes no character that is not white space |
| LegacyParser.TrimSingleSpaced | src/main.ts:522 | trimming a single-spaced text keeps it single-spaced and keeps its text |
| LegacyParser.TidySpec | src/main.ts:519-522 | a cleaned value is trimmed, single-spaced, has no line break, and keeps its text |
| LegacyParser.CardOfSpec | src/main.ts:513-530 | a kept card has a non-empty Front and Back, only the five field names as keys, and every value clean |
| LegacyParser.CardsOfSpec | src/main.ts:458-531 | there is at most one card per chunk, and every card comes from a chunk with a front and a back |
| LegacyParser.CardsShape | src/main.ts:445-535 | every card of a note has a non-empty Front and Back, keys among the five names, and values trimmed and single-spaced with no line break |
| LegacyParser.TidyFields | src/main.ts:516-524 | the `forEach` clean-up rewrites every non-empty value and leaves empty ones |
| LegacyParser.Record | src/main.ts:464-466 | a found field is stored trimmed; a missing one leaves the card unchanged |
| LegacyParser.FindFields | src/main.ts:460-511 | the field-by-field search gives the specified raw fields |
| LegacyParser.ContextTextSpec | src/main.ts:494-506 | whenever `-   Context: ` occurs, the Context text is the lazy capture after its first occurrence; only when it never occurs is the plain `Context:` capture used; there is no Context text exactly when `Context:` never occurs |
| LegacyParser.EmptyBulletHidesContext | src/main.ts:496-510 | an empty bullet capture still shuts out the plain form, although the plain pattern matches: the card gets no Context field |
| LegacyParser.FindContext | src/main.ts:494-506 | the bullet-then-plain search returns the Context text that ContextTextSpec characterises |
| LegacyParser.ParseContent | src/main.ts:445-535 | `parseContent` returns the cards of the chunks in chunk order, whatever the mapping and the field list |
| SyncPlan.FrontIndex | src/anki-service.ts:175-180 | building the index throws exactly when some existing note has no `Front` field |
| SyncPlan.FrontIndexSpec | src/anki-service.ts:175-180 | when every note has a front, the index holds exactly the fronts of the existing notes, each with the id of the last note that has it |
| SyncPlan.LookupFront | src/anki-service.ts:188 | a card finds an id exactly when it has a Front and some note has that front |
| SyncPlan.UpdatedFields | src/anki-service.ts:190-193 | the cards of the updates are their fields, in order |
| SyncPlan.Partition | src/anki-service.ts:187-197 | the loop sends each card to `updateCards` or `newCards` as the specified lists say |
| SyncPlan.PartitionCounts | src/anki-service.ts:184-197 | the new cards and the updated cards together are the cards, counted with repetition |
| SyncPlan.NewCardsAreNew | src/anki-service.ts:194-196 | every new card fails the update test |
| SyncPlan.UpdatesMatchNotes | src/anki-service.ts:188-193 | every update passes the test, carries the id found for its card, and carries the card's fields unchanged |
| SyncPlan.PartitionKeepsOrder | src/anki-service.ts:187-197 | both lists only grow at their ends, so relative order is kept |
| SyncPlan.RulesDifferOnlyAtZero | src/main.ts:367-368 | the truthiness test of `sendToAnki` implies the number test of `syncFlashcards`; the two differ only for the id 0 |
| SyncPlan.EnsureDeckExists | src/anki-service.ts:139-146 | returns true exactly when the deck name is absent from the deck list |
| SyncPlan.DeckExistsAfter | src/anki-service.ts:139-146 | afterwards the deck exists or is created, and nothing is created when it already existed |
| SyncPlan.SyncFlashcards | src/anki-service.ts:153-263 | the requests are the deck check followed by the update batch (if any) and the add batch (if any), or a single add batch when no notes exist; the call throws after the deck check when an existing note has no `Front` field |
| SyncPlan.MissingFrontFails | src/anki-service.ts:171-180 | a sync throws exactly when the deck holds notes and one of them lacks a `Front` field, and then it has sent only the deck check and no `multi` batch |
| SyncPlan.EveryCardWrittenOnce | src/anki-service.ts:170-258 | when the sync does not throw, all actions together carry every card exactly once |
| SyncPlan.NoExistingNotesAllAdded | src/anki-service.ts:239-257 | without existing notes every card becomes an `addNote` with the deck, the note type, `allowDuplicate: false` and `duplicateScope: "deck"` |
| Decorator.HueColorsCycle | src/field-decorator.ts:20-26 | the `k`-th and `j`-th generated colours are equal exactly when `k` and `j` agree modulo 6 |
| Decorator.NumberedAdd | src/field-decorator.ts:30-32 | caching a new field with the next colour keeps the `k`-th cached field coloured with the `k`-th colour |
| Decorator.FieldDecorator.constructor | src/field-decorator.ts:15-17 | a new decorator has an empty cache and a generator at zero |
| Decorator.FieldDecorator.NextColor | src/field-decorator.ts:22-25 | one generator call returns the colour of the current count and advances the count by one |
| Decorator.FieldDecorator.GetColorForField | src/field-decorator.ts:29-34 | returns the cached colour and changes nothing for a known field; for a new field it adds exactly one entry, with the next colour, and advances the counter by one; no existing entry changes |
| Decorator.FieldDecorator.ScanRange | src/field-decorator.ts:68-84 | one visible range caches a colour for every mapped field and collects the marks of every mapping in mapping order; the fields not cached before get the next colours of the generator, in the order they first appear in the mappings |
| Decorator.FieldDecorator.BuildDecorations | src/field-decorator.ts:54-100 | the mappings are those of the header `parseFrontmatter` accepts; without such a header, or without a visible range, there are no decorations and no colour is asked for; otherwise the result is every range's marks sorted by position, and the uncached fields get the next colours in mapping order, the first range alone adding any |
| Decorator.FieldDecorator.ProcessTextNode | src/field-decorator.ts:124-168 | one text node caches every mapped field's colour, the uncached ones getting the next colours in mapping order, and gets the first replacement among the mappings |
| Decorator.FieldDecorator.ProcessContent | src/field-decorator.ts:107-171 | the mappings are `Object.entries` of the given field mappings; every text node gets its own replacement, in document order; without text nodes no colour is asked for, otherwise the uncached fields get the next colours in mapping order, the first node alone adding any |
| Decorator.UnseenSpec | src/field-decorator.ts:71-72 | the fields a scan asks a new colour for are the mapped fields not yet cached, each once, in the order of their first appearance in the mappings |
| Decorator.FirstScanColours | src/field-decorator.ts:20-34 | on a new decorator, scanning any range of any document with the mappings of `Front` then `Back` colours `Front` with the first colour and `Back` with the second, which differ |
| Decorator.HeaderMappings | src/field-decorator.ts:57-62 | the decorator has mappings exactly when `parseFrontmatter` accepts the document's header |
| Decorator.HeaderOfStrings | src/field-decorator.ts:57-71 | a header whose `ankiFieldMappings` maps to strings gives exactly those pairs, in order |
| Decorator.EntriesOfStringMap | src/field-decorator.ts:71 | `Object.entries` gives back a mapping of strings pair for pair |
| Decorator.ListEntries | src/field-decorator.ts:71-73 | a list of mappings is read under the keys `"0"`, `"1"`, …, pairwise different, each item's text being its label |
| Decorator.DecimalRoundTrip | src/field-decorator.ts:71 | the key of a list index reads back as that index |
| Decorator.DecimalInjective | src/field-decorator.ts:71 | different list indices have different keys |
| Decorator.CoercedLabels | src/field-decorator.ts:73 | `${…}` writes a null label as `null`, a number as its text and a list as its items joined by commas |
| Decorator.CachedColors | src/field-decorator.ts:20-34 | two cached fields share a colour exactly when their order of first request agrees modulo 6, so the first six fields get six different colours |
| Decorator.OccurrencesSpec | src/field-decorator.ts:74-83 | the occurrences are exactly the positions where the marker occurs, overlapping ones included, in ascending order |
| Decorator.OccurrencesByIndexOf | src/field-decorator.ts:82 | resuming `indexOf` at `pos + 1` finds the next occurrence |
| Decorator.MarksAtSpec | src/field-decorator.ts:77-81 | each mark sits at `from + pos` with the marker's length and the field's colour |
| Decorator.NextOccurrence | src/field-decorator.ts:74 | `indexOf` finds the first of the remaining occurrences, or reports that none remains |
| Decorator.ScanSlice | src/field-decorator.ts:74-83 | the `while (pos !== -1)` loop collects one mark per occurrence in the slice, in order |
| Decorator.SliceMarksAreOccurrences | src/field-decorator.ts:76-81 | each mark covers an occurrence of the marker that lies inside its visible range |
| Decorator.SliceMarksAreComplete | src/field-decorator.ts:74-83 | every occurrence of the marker inside the visible range is marked |
| Decorator.SliceMarksSpec | src/field-decorator.ts:73-83 | the marks of one range and one marker are exactly that marker's occurrences inside the range |
| Decorator.Pattern | src/field-decorator.ts:73 | the marker is the label followed by `:` |
| Decorator.RangeMarksSpec | src/field-decorator.ts:71-84 | the marks of a range are exactly the occurrences of every mapping's marker in it, each in the colour of its field |
| Decorator.CollectedSpec | src/field-decorator.ts:68-85 | the marks collected over all ranges are exactly the occurrences of some mapping's marker inside some range |
| Decorator.InsertSpec | src/field-decorator.ts:88 | inserting into a sorted list keeps it sorted and adds exactly that mark |
| Decorator.SortByPosSpec | src/field-decorator.ts:88 | the sort orders the marks by position and is a permutation |
| Decorator.InsertAtPos | src/field-decorator.ts:88 | inserting a mark puts it after the marks already at its position and changes no other position |
| Decorator.SortByPosStable | src/field-decorator.ts:88 | the sort is stable: at every position the marks keep the order in which they were collected |
| Decorator.DecorationsSpec | src/field-decorator.ts:64-97 | the decorations are sorted by position, are a permutation of the collected marks, and are exactly the marker occurrences inside the visible ranges |
| Decorator.FirstReplacementSpec | src/field-decorator.ts:124-168 | a node is rewritten exactly when some mapping yields a replacement, and then by the first such mapping |
| Decorator.RewrittenNode | src/field-decorator.ts:132-167 | a rewritten node shows its original text, with the marker of the rewriting mapping in a highlighted span and none left in plain text |
| Fragments.FragmentsSome | src/field-decorator.ts:135-148 | at a match the loop pushes the text before it (when there is any) and then the span |
| Fragments.FragmentsRender | src/field-decorator.ts:132-155 | the fragments show exactly the text they were cut from |
| Fragments.FragmentsClean | src/field-decorator.ts:135-155 | every plain fragment is non-empty and holds no marker, and every span holds the marker in the field's colour |
| Fragments.FragmentsOfFree | src/field-decorator.ts:153-155 | a text without the marker gives itself as the only fragment, or nothing when it is empty |
| Fragments.ReplacementSpec | src/field-decorator.ts:126-168 | a node is replaced exactly when the marker occurs in it and the node is not the marker alone; the replacement shows the same text |
| Fragments.CollectFragments | src/field-decorator.ts:135-155 | the `while (pos !== -1)` loop and the remaining text give the specified fragments |
| Fragments.PushMatch | src/field-decorator.ts:137-146 | one pass of the loop body appends the text before the match, if any, then the span |
| Fragments.FragmentsAdvance | src/field-decorator.ts:135-150 | fragments pushed so far plus those from the next `lastPos` are all the fragments |
| Fragments.FragmentsFinish | src/field-decorator.ts:153-155 | after the loop, the remaining text completes the fragments |
| Fragments.SplitAtMarker | src/field-decorator.ts:126-168 | one mapping on one text node returns nothing when the marker is absent, and the fragments only when there is more than one |
| Highlight.MarkerAloneStaysPlain | src/field-decorator.ts:158 | a text node that is exactly one marker is not highlighted |
| Highlight.SecondMarkerStaysPlain | src/field-decorator.ts:124-168 | in `Front: q Back: a`, only the Front marker is highlighted; the Back marker stays in a plain fragment |
| Highlight.HighlightAllSpec | src/field-decorator.ts:132-155 | splitting at every mapping's marker in turn keeps the text, leaves no empty plain fragment, and leaves no marker of any mapping in plain text |
| Highlight.HighlightedNodeSpec | src/field-decorator.ts:124-168 | a node is rewritten exactly when some mapping's marker occurs in it, a lone marker included; the rewrite shows the node's text with every marker highlighted |

## Left out

- The YAML decoder (`parseYaml`) is a library call. It is a function parameter returning a decoded value or `Threw`; duplicate keys and YAML syntax are not modelled.
- AnkiConnect is not modelled: `invokeAnkiConnect`, `fetch`, `deckNames`, `findNotes`, `notesInfo`, `multi`, `loadNoteTypes` and the async plumbing. Their answers are parameters, and the requests are returned as values. Of the failures that `syncFlashcards` and `sendToAnki` re-throw as `Failed to sync cards`, only the one that arises in the plugin's own code is modelled: an existing note without a `Front` field (SyncPlan.MissingFrontFails). Failures of AnkiConnect requests, the error message text, and `Failed to ensure deck exists` are left out as network behaviour.
- The Obsidian UI and lifecycle have no algorithmic content and are left out: `onload`, `getActiveMarkdownView`, `syncCurrentNoteToAnki`, `Notice`, the settings tabs, the decoration manager, the logger and the version script.
- CodeMirror and the DOM are left out: `RangeSetBuilder`, `Decoration.mark`, `ViewPlugin`, the `TreeWalker`, `createElement` and `replaceWith`. A visible range is a pair of offsets, a text node is its text, and a rewrite is a list of fragments.
- Object key order: a field mapping is the list of its entries in the order `Object.keys`/`Object.entries` lists them. JavaScript's rule that integer-like keys come first is not modelled.
- Number-to-text conversion is a function parameter (`showNumber`) of the decorator's coercion of mapping values.
- Regular-expression metacharacters in labels are not modelled; labels are matched literally.
- Extraction.CleanEntry and Parser.ConvertEntry: their own contracts state only the keys. The values are stated through CleanEntryByKeys, CleanValueIsTrimmed, ConvertEntryByKeys and ConvertedValuesAreClean.
- Markdown.Turn: its own contract states only progress. What each turn emits is stated by the MarkdownFacts lemmas.
- Positions are character indices; UTF-16 surrogate pairs are not modelled.
- Idempotence of `markdownToHtml` is not claimed, since nothing in the source asserts it.

## Findings

| source | as written | input that shows it | evidently intended | confidence | as-written member | corrected member |
|---|---|---|---|---|---|---|
| src/field-decorator.ts:158 | a text node is replaced only when the split yields more than one fragment, so a node that is exactly the marker (as `**Front:**` renders in reading view) stays plain | text node `Front:` with the mapping Front → Front | every occurrence of a marker is highlighted, including one that fills its node | not executed | Highlight.MarkerAloneStaysPlain | Highlight.HighlightedNodeSpec |
| src/field-decorator.ts:124-168 | the first mapping whose marker occurs replaces the text node; the later `replaceWith` calls act on the detached node and change nothing in the document, so markers of later mappings in the same node stay plain | text node `Front: q Back: a` with the mappings Front → Front and Back → Back | every mapping's markers in a node are highlighted | not executed | Highlight.SecondMarkerStaysPlain | Highlight.HighlightedNodeSpec |
