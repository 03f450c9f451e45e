/** The upsert planning of `syncFlashcards` in src/anki-service.ts and of its
    twin `sendToAnki` in src/main.ts: existing notes are indexed by their
    `Front` field, each card becomes an update of the note it names or a new
    note, and the writes are sent in at most two batches. The AnkiConnect
    queries (`deckNames`, `findNotes`, `notesInfo`) are not modelled; their
    answers are parameters. */
module SyncPlan {
  import opened Strings

  /** A card: field name to field value. */
  type Card = map<string, string>

  /** What `notesInfo` reports about one existing note: its id and the value
      of its `Front` field. `fields` is an index signature, so a note of
      another note type may have no `Front` field at all. */
  datatype Note = Note(noteId: int, front: Option<string>)

  // ---------------------------------------------------------------------------
  // The index of existing notes

  /** Every note has a `Front` field. */
  predicate HasFronts(notes: seq<Note>) {
    forall i :: 0 <= i < |notes| ==> notes[i].front.Some?
  }

  /** `new Map(notes.map(note => [note.fields.Front.value, note.noteId]))`:
      entries are inserted in order, so a later note with the same front
      replaces an earlier one; reading `.value` of a missing `Front` throws
      a `TypeError`, modelled as `None`. */
  function FrontIndex(notes: seq<Note>): (r: Option<map<string, int>>)
    ensures r.Some? <==> HasFronts(notes)
  {
    if |notes| == 0 then Some(map[])
    else
      var last := notes[|notes| - 1];
      var init := FrontIndex(notes[..|notes| - 1]);
      assert HasFronts(notes) <==> HasFronts(notes[..|notes| - 1]) && last.front.Some?;
      if init.None? || last.front.None? then None
      else Some(init.value[last.front.value := last.noteId])
  }

  /** `notes[i]` is the last note whose front is `f`. */
  predicate LastWith(notes: seq<Note>, f: string, i: int) {
    0 <= i < |notes| && notes[i].front == Some(f) && forall j :: i < j < |notes| ==> notes[j].front != Some(f)
  }

  /** When every note has a front, the index holds exactly the fronts of the
      notes, each with the id of the last note that has it. */
  lemma {:induction false} FrontIndexSpec(notes: seq<Note>)
    requires HasFronts(notes)
    ensures forall f :: f in FrontIndex(notes).value <==> exists i :: 0 <= i < |notes| && notes[i].front == Some(f)
    ensures forall f :: f in FrontIndex(notes).value ==>
              exists i :: LastWith(notes, f, i) && FrontIndex(notes).value[f] == notes[i].noteId
  {
    FrontIndexKeys(notes);
    FrontIndexIds(notes);
  }

  lemma {:induction false} FrontIndexKeys(notes: seq<Note>)
    requires HasFronts(notes)
    ensures forall f :: f in FrontIndex(notes).value <==> exists i :: 0 <= i < |notes| && notes[i].front == Some(f)
  {
    if |notes| > 0 {
      var init := notes[..|notes| - 1];
      var n := |notes| - 1;
      assert HasFronts(init) by {
        forall i | 0 <= i < |init| ensures init[i].front.Some? {
          assert init[i] == notes[i];
        }
      }
      FrontIndexKeys(init);
      var m := FrontIndex(notes).value;
      assert m == FrontIndex(init).value[notes[n].front.value := notes[n].noteId];
      forall f ensures f in m <==> exists i :: 0 <= i < |notes| && notes[i].front == Some(f) {
        if exists i :: 0 <= i < |notes| && notes[i].front == Some(f) {
          var i :| 0 <= i < |notes| && notes[i].front == Some(f);
          if i < n {
            assert init[i].front == Some(f);
          }
        }
        if f in FrontIndex(init).value {
          var i :| 0 <= i < |init| && init[i].front == Some(f);
          assert notes[i].front == Some(f);
        }
      }
    }
  }

  lemma {:induction false} FrontIndexIds(notes: seq<Note>)
    requires HasFronts(notes)
    ensures forall f :: f in FrontIndex(notes).value ==>
              exists i :: LastWith(notes, f, i) && FrontIndex(notes).value[f] == notes[i].noteId
  {
    if |notes| > 0 {
      var init := notes[..|notes| - 1];
      var n := |notes| - 1;
      assert HasFronts(init) by {
        forall i | 0 <= i < |init| ensures init[i].front.Some? {
          assert init[i] == notes[i];
        }
      }
      FrontIndexIds(init);
      var m := FrontIndex(notes).value;
      assert m == FrontIndex(init).value[notes[n].front.value := notes[n].noteId];
      forall f | f in m ensures exists i :: LastWith(notes, f, i) && m[f] == notes[i].noteId {
        if Some(f) == notes[n].front {
          assert LastWith(notes, f, n);
        } else {
          var i :| LastWith(init, f, i) && FrontIndex(init).value[f] == init[i].noteId;
          assert LastWith(notes, f, i);
        }
      }
    }
  }

  // ---------------------------------------------------------------------------
  // Splitting the cards

  /** The two tests that decide an update: `typeof id === "number"` in
      src/anki-service.ts and the truthiness test `if (id)` in src/main.ts. */
  datatype Rule = IsNumber | IsTruthy

  /** `existingNoteMap.get(card.Front)`: undefined when the card has no
      `Front` or no note has that front. */
  function LookupFront(index: map<string, int>, card: Card): (r: Option<int>)
    ensures r.Some? <==> "Front" in card && card["Front"] in index
  {
    if "Front" in card && card["Front"] in index then Some(index[card["Front"]]) else None
  }

  predicate IsUpdate(rule: Rule, id: Option<int>) {
    id.Some? && (rule.IsTruthy? ==> id.value != 0)
  }

  /** An update of an existing note with the card's fields. */
  datatype Update = Update(id: int, fields: Card)

  /** The cards that are sent as new notes, in card order. */
  function NewCards(cards: seq<Card>, index: map<string, int>, rule: Rule): seq<Card> {
    if |cards| == 0 then []
    else
      var c := cards[|cards| - 1];
      NewCards(cards[..|cards| - 1], index, rule) + (if IsUpdate(rule, LookupFront(index, c)) then [] else [c])
  }

  /** The updates, in card order. */
  function UpdateCards(cards: seq<Card>, index: map<string, int>, rule: Rule): seq<Update> {
    if |cards| == 0 then []
    else
      var c := cards[|cards| - 1];
      var id := LookupFront(index, c);
      UpdateCards(cards[..|cards| - 1], index, rule) + (if IsUpdate(rule, id) then [Update(id.value, c)] else [])
  }

  /** The cards of a list of updates. */
  function UpdatedFields(us: seq<Update>): (r: seq<Card>)
    ensures |r| == |us| && forall i :: 0 <= i < |us| ==> r[i] == us[i].fields
  {
    seq(|us|, i requires 0 <= i < |us| => us[i].fields)
  }

  /** The `for (const card of flashcards)` loop. */
  method Partition(flashcards: seq<Card>, index: map<string, int>, rule: Rule)
    returns (newCards: seq<Card>, updateCards: seq<Update>)
    ensures newCards == NewCards(flashcards, index, rule)
    ensures updateCards == UpdateCards(flashcards, index, rule)
  {
    newCards := [];
    updateCards := [];
    for n := 0 to |flashcards|
      invariant newCards == NewCards(flashcards[..n], index, rule)
      invariant updateCards == UpdateCards(flashcards[..n], index, rule)
    {
      var card := flashcards[n];
      assert flashcards[..n + 1][..n] == flashcards[..n];
      var existingNoteId := LookupFront(index, card);
      if IsUpdate(rule, existingNoteId) {
        updateCards := updateCards + [Update(existingNoteId.value, card)];
      } else {
        newCards := newCards + [card];
      }
    }
    assert flashcards[..|flashcards|] == flashcards;
  }

  /** Together the two lists hold the cards, counted with repetition. */
  lemma {:induction false} PartitionCounts(cards: seq<Card>, index: map<string, int>, rule: Rule)
    ensures multiset(NewCards(cards, index, rule)) + multiset(UpdatedFields(UpdateCards(cards, index, rule))) == multiset(cards)
  {
    if |cards| > 0 {
      PartitionCounts(cards[..|cards| - 1], index, rule);
      PartitionLast(cards, index, rule);
    }
  }

  /** The last card goes to exactly one of the two lists. */
  lemma PartitionLast(cards: seq<Card>, index: map<string, int>, rule: Rule)
    requires |cards| > 0
    requires var init := cards[..|cards| - 1];
             multiset(NewCards(init, index, rule)) + multiset(UpdatedFields(UpdateCards(init, index, rule))) == multiset(init)
    ensures multiset(NewCards(cards, index, rule)) + multiset(UpdatedFields(UpdateCards(cards, index, rule))) == multiset(cards)
  {
    CardsLast(cards);
    NewCardsLast(cards, index, rule);
    UpdatedLast(cards, index, rule);
  }

  lemma CardsLast(cards: seq<Card>)
    requires |cards| > 0
    ensures multiset(cards) == multiset(cards[..|cards| - 1]) + multiset{cards[|cards| - 1]}
  {
    assert cards == cards[..|cards| - 1] + [cards[|cards| - 1]];
  }

  lemma NewCardsLast(cards: seq<Card>, index: map<string, int>, rule: Rule)
    requires |cards| > 0
    ensures var c := cards[|cards| - 1];
            multiset(NewCards(cards, index, rule)) ==
            multiset(NewCards(cards[..|cards| - 1], index, rule)) + (if IsUpdate(rule, LookupFront(index, c)) then multiset{} else multiset{c})
  {
  }

  lemma UpdatedLast(cards: seq<Card>, index: map<string, int>, rule: Rule)
    requires |cards| > 0
    ensures var c := cards[|cards| - 1];
            multiset(UpdatedFields(UpdateCards(cards, index, rule))) ==
            multiset(UpdatedFields(UpdateCards(cards[..|cards| - 1], index, rule))) + (if IsUpdate(rule, LookupFront(index, c)) then multiset{c} else multiset{})
  {
    var c := cards[|cards| - 1];
    var id := LookupFront(index, c);
    var us := UpdateCards(cards[..|cards| - 1], index, rule);
    if IsUpdate(rule, id) {
      assert UpdateCards(cards, index, rule) == us + [Update(id.value, c)];
      UpdatedFieldsSnoc(us, Update(id.value, c));
    } else {
      assert UpdateCards(cards, index, rule) == us;
    }
  }

  lemma UpdatedFieldsSnoc(us: seq<Update>, u: Update)
    ensures multiset(UpdatedFields(us + [u])) == multiset(UpdatedFields(us)) + multiset{u.fields}
  {
    assert UpdatedFields(us + [u]) == UpdatedFields(us) + [u.fields];
  }

  /** Every new card fails the update test. */
  lemma {:induction false} NewCardsAreNew(cards: seq<Card>, index: map<string, int>, rule: Rule)
    ensures forall c :: c in NewCards(cards, index, rule) ==> !IsUpdate(rule, LookupFront(index, c))
  {
    if |cards| > 0 {
      NewCardsAreNew(cards[..|cards| - 1], index, rule);
    }
  }

  /** Every update passes the test, and carries the id found for its card and
      the card's fields unchanged. */
  lemma {:induction false} UpdatesMatchNotes(cards: seq<Card>, index: map<string, int>, rule: Rule)
    ensures forall u :: u in UpdateCards(cards, index, rule) ==>
              IsUpdate(rule, LookupFront(index, u.fields)) && LookupFront(index, u.fields) == Some(u.id)
  {
    if |cards| > 0 {
      UpdatesMatchNotes(cards[..|cards| - 1], index, rule);
    }
  }

  /** The lists grow at their ends as the loop advances: a card handled
      earlier stands earlier in its list. */
  lemma {:induction false} PartitionKeepsOrder(cards: seq<Card>, n: nat, index: map<string, int>, rule: Rule)
    requires n <= |cards|
    ensures NewCards(cards[..n], index, rule) <= NewCards(cards, index, rule)
    ensures UpdateCards(cards[..n], index, rule) <= UpdateCards(cards, index, rule)
    decreases |cards| - n
  {
    if n < |cards| {
      PartitionKeepsOrder(cards, n + 1, index, rule);
      assert cards[..n + 1][..n] == cards[..n];
    } else {
      assert cards[..n] == cards;
    }
  }

  /** The two rules disagree only about a note whose id is 0, which the
      truthiness test of src/main.ts sends as a new note. */
  lemma RulesDifferOnlyAtZero(id: Option<int>)
    ensures IsUpdate(IsTruthy, id) ==> IsUpdate(IsNumber, id)
    ensures IsUpdate(IsNumber, id) != IsUpdate(IsTruthy, id) <==> id == Some(0)
  {}

  // ---------------------------------------------------------------------------
  // The writes

  /** The AnkiConnect actions sent in a `multi` batch. */
  datatype Action =
    | UpdateNoteFields(id: int, fields: Card)
    | AddNote(deckName: string, modelName: string, fields: Card, allowDuplicate: bool, duplicateScope: string)

  /** `newCards.map(card => ({action: "addNote", ...}))`. */
  function AddActions(cards: seq<Card>, deck: string, noteType: string): (r: seq<Action>)
    ensures |r| == |cards|
  {
    seq(|cards|, i requires 0 <= i < |cards| => AddNote(deck, noteType, cards[i], false, "deck"))
  }

  /** `updateCards.map(card => ({action: "updateNoteFields", ...}))`. */
  function UpdateActions(us: seq<Update>): (r: seq<Action>)
    ensures |r| == |us|
  {
    seq(|us|, i requires 0 <= i < |us| => UpdateNoteFields(us[i].id, us[i].fields))
  }

  /** The requests that change the collection. */
  datatype Request = CreateDeck(deck: string) | Multi(actions: seq<Action>)

  /** `ensureDeckExists`: a `createDeck` request exactly when the deck is not
      among the existing deck names; the flag says whether it was sent. */
  function EnsureDeckExists(decks: seq<string>, deckName: string): (r: (bool, seq<Request>))
    ensures r.0 <==> deckName !in decks
  {
    if deckName !in decks then (true, [CreateDeck(deckName)]) else (false, [])
  }

  /** The decks a list of requests creates. */
  function CreatedDecks(rs: seq<Request>): set<string> {
    set r | r in rs && r.CreateDeck? :: r.deck
  }

  /** After `ensureDeckExists` the deck exists, and nothing is created when it
      already did. */
  lemma DeckExistsAfter(decks: seq<string>, deckName: string)
    ensures deckName in decks || deckName in CreatedDecks(EnsureDeckExists(decks, deckName).1)
    ensures deckName in decks ==> CreatedDecks(EnsureDeckExists(decks, deckName).1) == {}
  {
    if deckName !in decks {
      assert CreateDeck(deckName) in EnsureDeckExists(decks, deckName).1;
    }
  }

  /** The `multi` batches that follow the deck check: with existing notes, the
      updates (if any) and then the new notes (if any); without, every card
      as a new note, in one batch even when there are no cards. An absent
      `findNotes` answer counts as no notes. `None` when building the index
      of existing notes throws, before any batch is sent. */
  function Batches(cards: seq<Card>, existingIds: Option<seq<int>>, notes: seq<Note>,
                   deck: string, noteType: string, rule: Rule): Option<seq<seq<Action>>>
  {
    if existingIds.Some? && |existingIds.value| > 0 then
      var index := FrontIndex(notes);
      if index.None? then None
      else
        var updates := UpdateCards(cards, index.value, rule);
        var added := NewCards(cards, index.value, rule);
        Some((if |updates| > 0 then [UpdateActions(updates)] else []) +
             (if |added| > 0 then [AddActions(added, deck, noteType)] else []))
    else Some([AddActions(cards, deck, noteType)])
  }

  /** How a sync ends: it returns after sending its requests, or it throws
      `Failed to sync cards` after sending the requests listed. */
  datatype Outcome = Synced(requests: seq<Request>) | Failed(requests: seq<Request>)

  /** The requests `syncFlashcards` sends that change the collection, and
      whether it throws. */
  function SyncRequests(cards: seq<Card>, decks: seq<string>, existingIds: Option<seq<int>>, notes: seq<Note>,
                        deck: string, noteType: string, rule: Rule): Outcome
  {
    var deckCheck := EnsureDeckExists(decks, deck).1;
    var batches := Batches(cards, existingIds, notes, deck, noteType, rule);
    if batches.None? then Failed(deckCheck)
    else Synced(deckCheck + seq(|batches.value|, i requires 0 <= i < |batches.value| => Multi(batches.value[i])))
  }

  /** `syncFlashcards` (rule `IsNumber`) and `sendToAnki` (rule `IsTruthy`),
      with the answers of the AnkiConnect queries as parameters. */
  method SyncFlashcards(flashcards: seq<Card>, decks: seq<string>, existingNoteIds: Option<seq<int>>,
                        existingNotes: seq<Note>, deck: string, noteType: string, rule: Rule)
    returns (outcome: Outcome)
    ensures outcome == SyncRequests(flashcards, decks, existingNoteIds, existingNotes, deck, noteType, rule)
  {
    var ensured := EnsureDeckExists(decks, deck);
    var requests := ensured.1;
    ghost var batches := Batches(flashcards, existingNoteIds, existingNotes, deck, noteType, rule);
    if existingNoteIds.Some? && |existingNoteIds.value| > 0 {
      var existingNoteMap := FrontIndex(existingNotes);
      if existingNoteMap.None? {
        return Failed(requests);
      }
      var newCards, updateCards := Partition(flashcards, existingNoteMap.value, rule);
      if |updateCards| > 0 {
        requests := requests + [Multi(UpdateActions(updateCards))];
      }
      if |newCards| > 0 {
        requests := requests + [Multi(AddActions(newCards, deck, noteType))];
      }
    } else {
      requests := requests + [Multi(AddActions(flashcards, deck, noteType))];
    }
    assert requests == ensured.1 + seq(|batches.value|, i requires 0 <= i < |batches.value| => Multi(batches.value[i]));
    outcome := Synced(requests);
  }

  /** A sync throws exactly when the deck already holds notes and one of them
      has no `Front` field; it then has sent at most the deck check, and no
      `multi` batch. */
  lemma MissingFrontFails(cards: seq<Card>, decks: seq<string>, existingIds: Option<seq<int>>, notes: seq<Note>,
                          deck: string, noteType: string, rule: Rule)
    ensures var out := SyncRequests(cards, decks, existingIds, notes, deck, noteType, rule);
            out.Failed? <==> existingIds.Some? && |existingIds.value| > 0 && exists i :: 0 <= i < |notes| && notes[i].front.None?
    ensures var out := SyncRequests(cards, decks, existingIds, notes, deck, noteType, rule);
            out.Failed? ==> out.requests == EnsureDeckExists(decks, deck).1 && forall r :: r in out.requests ==> !r.Multi?
  {
  }

  /** All actions of a list of batches, in order. */
  function Flatten(batches: seq<seq<Action>>): seq<Action> {
    if |batches| == 0 then [] else Flatten(batches[..|batches| - 1]) + batches[|batches| - 1]
  }

  function WrittenAll(actions: seq<Action>): (r: seq<Card>)
    ensures |r| == |actions| && forall i :: 0 <= i < |actions| ==> r[i] == actions[i].fields
  {
    seq(|actions|, i requires 0 <= i < |actions| => actions[i].fields)
  }

  lemma FlattenTwo(a: seq<seq<Action>>, b: seq<seq<Action>>)
    requires |a| <= 1 && |b| <= 1
    ensures Flatten(a + b) == Flatten(a) + Flatten(b)
  {
    if |b| == 0 {
      assert a + b == a;
    } else {
      assert (a + b)[..|a + b| - 1] == a;
    }
    if |a| == 1 {
      assert a[..0] == [];
    }
  }

  lemma FlattenOne(a: seq<Action>)
    ensures Flatten([a]) == a
  {
    assert [a][..0] == [];
  }

  /** Every card is written exactly once: when the sync does not throw, the
      fields carried by all actions of all batches are the cards, counted
      with repetition. */
  lemma EveryCardWrittenOnce(cards: seq<Card>, existingIds: Option<seq<int>>, notes: seq<Note>,
                             deck: string, noteType: string, rule: Rule)
    ensures var batches := Batches(cards, existingIds, notes, deck, noteType, rule);
            batches.Some? ==> multiset(WrittenAll(Flatten(batches.value))) == multiset(cards)
  {
    if existingIds.Some? && |existingIds.value| > 0 {
      var index := FrontIndex(notes);
      if index.Some? {
        UpsertWritesAll(cards, index.value, deck, noteType, rule);
      }
    } else {
      FlattenOne(AddActions(cards, deck, noteType));
      WrittenAdded(cards, deck, noteType);
    }
  }

  /** The update batch and the add batch together write every card once. */
  lemma UpsertWritesAll(cards: seq<Card>, index: map<string, int>, deck: string, noteType: string, rule: Rule)
    ensures var updates := UpdateCards(cards, index, rule);
            var added := NewCards(cards, index, rule);
            var batches := (if |updates| > 0 then [UpdateActions(updates)] else []) +
                           (if |added| > 0 then [AddActions(added, deck, noteType)] else []);
            multiset(WrittenAll(Flatten(batches))) == multiset(cards)
  {
    var updates := UpdateCards(cards, index, rule);
    var added := NewCards(cards, index, rule);
    PartitionCounts(cards, index, rule);
    var a: seq<seq<Action>> := if |updates| > 0 then [UpdateActions(updates)] else [];
    var b: seq<seq<Action>> := if |added| > 0 then [AddActions(added, deck, noteType)] else [];
    FlattenTwo(a, b);
    if |updates| > 0 {
      FlattenOne(UpdateActions(updates));
    }
    if |added| > 0 {
      FlattenOne(AddActions(added, deck, noteType));
    }
    WrittenAdded(added, deck, noteType);
    WrittenUpdated(updates);
    WrittenAllAppend(Flatten(a), Flatten(b));
  }

  lemma WrittenAllAppend(x: seq<Action>, y: seq<Action>)
    ensures WrittenAll(x + y) == WrittenAll(x) + WrittenAll(y)
  {
    var l := WrittenAll(x + y);
    var r := WrittenAll(x) + WrittenAll(y);
    assert |l| == |r|;
    forall i | 0 <= i < |l| ensures l[i] == r[i] {
      if i < |x| {
        assert (x + y)[i] == x[i];
      } else {
        assert (x + y)[i] == y[i - |x|];
      }
    }
  }

  lemma WrittenAdded(cards: seq<Card>, deck: string, noteType: string)
    ensures WrittenAll(AddActions(cards, deck, noteType)) == cards
  {
    var w := WrittenAll(AddActions(cards, deck, noteType));
    assert forall i :: 0 <= i < |cards| ==> w[i] == cards[i];
  }

  lemma WrittenUpdated(us: seq<Update>)
    ensures WrittenAll(UpdateActions(us)) == UpdatedFields(us)
  {
    var w := WrittenAll(UpdateActions(us));
    assert forall i :: 0 <= i < |us| ==> w[i] == UpdatedFields(us)[i];
  }

  /** Without existing notes every card becomes an `addNote` action for the
      given deck and note type that refuses duplicates within the deck. */
  lemma NoExistingNotesAllAdded(cards: seq<Card>, existingIds: Option<seq<int>>, notes: seq<Note>,
                                deck: string, noteType: string, rule: Rule)
    requires existingIds.None? || |existingIds.value| == 0
    ensures Batches(cards, existingIds, notes, deck, noteType, rule).Some?
    ensures var actions := Flatten(Batches(cards, existingIds, notes, deck, noteType, rule).value);
            |actions| == |cards| &&
            forall i :: 0 <= i < |cards| ==> actions[i] == AddNote(deck, noteType, cards[i], false, "deck")
  {
    FlattenOne(AddActions(cards, deck, noteType));
  }
}
