/** The `GET /api/dictionary` handler: a read-through cache of dictionary
    entries keyed by (word, language) in an append-only store. A hit is
    answered from the store; a miss asks the completion endpoint for a JSON
    definition, normalises its fields and appends one new entry. */
module Dictionary {
  import opened Wrappers
  import opened Text
  import opened Json
  import opened Http

  /** A stored row. `id` and `createdAt` are assigned by the store. */
  datatype Entry = Entry(id: nat, word: string, language: string, definition: string,
                         partOfSpeech: string, examples: string, createdAt: int)

  /** The normalised fields of a parsed reply, ready to be stored. */
  datatype Definition = Definition(definition: string, partOfSpeech: string, examples: string)

  /** What the miss path gets back: the call throws (`Unavailable`), the
      content is missing or is not JSON (`Unparsable`), or the parsed value. */
  datatype Reply = Unavailable | Unparsable | Parsed(result: Value)

  const WordAndLanguageRequired := "Word and language are required"
  const FailedToParse := "Failed to parse dictionary response"
  const ServiceUnavailable := "Dictionary service unavailable"

  const InstructionLead := "You are a dictionary API. Provide a dictionary definition for the word \""
  const InstructionTail := ". Return a JSON object with the following structure: { \"definition\": \"the definition of the term, concise and short, straight to the point\", \"partOfSpeech\": \"the part of speech (noun, verb, etc.)\", \"examples\": \"example sentences using the word\" }"

  /** The system instruction of line 52, asking for a JSON object. */
  function Instruction(word: string, language: string): string {
    InstructionLead + word + "\" in " + language + InstructionTail
  }

  /** The instruction names the word being looked up. */
  lemma {:induction false} InstructionEmbedsWord(word: string, language: string)
    ensures Contains(Instruction(word, language), word)
  {
    OccursAtEnd(InstructionLead, word);
    OccursAtExtend(InstructionLead + word, "\" in ", word, |InstructionLead|);
    OccursAtExtend(InstructionLead + word + "\" in ", language, word, |InstructionLead|);
    OccursAtExtend(InstructionLead + word + "\" in " + language, InstructionTail, word, |InstructionLead|);
  }

  /** A query parameter that passes `!word`: present and not empty. */
  predicate Given(p: Option<string>) {
    p.Some? && p.value != ""
  }

  /** Lines 78-85: an array is joined with ". ", any other truthy value is
      converted with `String`, a falsy or absent value gives "". `None` when
      the join or the conversion throws, which is exactly when `String` of
      the value would. */
  function Examples(v: Value): (r: Option<string>)
    ensures r.None? <==> ToString(v).None?
    ensures !Truthy(v) ==> r == Some("")
  {
    if !Truthy(v) then Some("")
    else if v.Array? then
      var parts := ElementStrings(v.items);
      if parts.None? then None else Some(Join(parts.value, ". "))
    else ToString(v)
  }

  /** `v || ""` as it reaches a text column: a falsy value becomes "", a
      string is kept, and any other truthy value is refused by the store
      (`None`), which the handler reports as unavailable. */
  function TextColumn(v: Value): (r: Option<string>)
    ensures !Truthy(v) ==> r == Some("")
    ensures v.Str? ==> r == Some(v.s)
    ensures r.None? <==> Truthy(v) && !v.Str?
  {
    if !Truthy(v) then Some("") else if v.Str? then Some(v.s) else None
  }

  /** Lines 78-95 on a parsed reply: `None` when reading `result.examples`
      throws (the reply was `null`), converting the examples throws, or the
      store refuses a field. */
  function Interpret(result: Value): (r: Option<Definition>)
    ensures r.None? <==> result.Null? || result.Undefined?
                         || Examples(Property(result, "examples").value).None?
                         || TextColumn(Property(result, "definition").value).None?
                         || TextColumn(Property(result, "partOfSpeech").value).None?
    ensures r.Some? ==> r.value.examples == Examples(Property(result, "examples").value).value
    ensures r.Some? ==> r.value.definition == TextColumn(Property(result, "definition").value).value
                        && r.value.partOfSpeech == TextColumn(Property(result, "partOfSpeech").value).value
  {
    match Property(result, "examples")
    case None => None
    case Some(examples) =>
      var text := Examples(examples);
      var definition := TextColumn(Property(result, "definition").value);
      var partOfSpeech := TextColumn(Property(result, "partOfSpeech").value);
      if text.None? || definition.None? || partOfSpeech.None? then None
      else Some(Definition(definition.value, partOfSpeech.value, text.value))
  }

  /** An array of plain strings is joined with ". ". */
  lemma {:induction false} ExamplesOfStrings(items: seq<string>)
    ensures Examples(Array(seq(|items|, i requires 0 <= i < |items| => Str(items[i])))) == Some(Join(items, ". "))
  {
    var values := seq(|items|, i requires 0 <= i < |items| => Str(items[i]));
    forall i | 0 <= i < |values| ensures ElementString(values[i]) == Some(items[i]) {
    }
    assert ElementStrings(values).Some?;
    assert ElementStrings(values).value == items;
  }

  /** One more example adds the separator and that example at the end. */
  lemma {:induction false} ExamplesSnoc(items: seq<Value>, last: string)
    requires |items| > 0
    ensures Examples(Array(items + [Str(last)])) ==
              if Examples(Array(items)).Some? then Some(Examples(Array(items)).value + ". " + last) else None
  {
    ElementStringsAppend(items, [Str(last)]);
    assert ElementString([Str(last)][0]) == Some(last);
    assert ElementStrings([Str(last)]).Some?;
    assert ElementStrings([Str(last)]).value == [last];
    if ElementStrings(items).Some? {
      JoinSnoc(ElementStrings(items).value, last, ". ");
    }
  }

  /** The two-sentence example: the sentences' own full stops stay, so the
      stored text has two full stops before the separator's space. */
  lemma SentenceExamples()
    ensures Examples(Array([Str("Go."), Str("Run.")])) == Some("Go.. Run.")
  {
    var first, second := "Go.", "Run.";
    var values := [Str(first), Str(second)];
    assert ElementString(values[0]) == Some(first) && ElementString(values[1]) == Some(second);
    assert ElementStrings(values).Some?;
    assert ElementStrings(values).value == [first, second];
    assert Join([first, second], ". ") == first + ". " + second by {
      assert [first, second][1..] == [second];
    }
    assert Examples(Array(values)) == Some(Join([first, second], ". "));
    assert first + ". " + second == "Go.. Run.";
  }

  /** A single string is stored as it is. */
  lemma ExamplesOfString(s: string)
    ensures Examples(Str(s)) == Some(s)
  {
  }

  predicate Matches(e: Entry, word: string, language: string) {
    e.word == word && e.language == language
  }

  /** `findFirst({ where: { word, language } })`, with the equality filter
      assumed exact and case-sensitive on both fields (as on PostgreSQL or
      SQLite); the index of the first such entry. */
  function Find(entries: seq<Entry>, word: string, language: string): (r: Option<nat>)
    ensures r.Some? ==> r.value < |entries| && Matches(entries[r.value], word, language)
    ensures r.Some? ==> forall j :: 0 <= j < r.value ==> !Matches(entries[j], word, language)
    ensures r.None? ==> forall j :: 0 <= j < |entries| ==> !Matches(entries[j], word, language)
  {
    if entries == [] then None
    else if Matches(entries[0], word, language) then Some(0)
    else match Find(entries[1..], word, language)
      case None => None
      case Some(i) => Some(i + 1)
  }

  /** After appending an entry for a pair the store did not hold, looking up
      that pair finds exactly that entry. */
  lemma {:induction false} FindAppended(entries: seq<Entry>, e: Entry)
    requires Find(entries, e.word, e.language).None?
    ensures Find(entries + [e], e.word, e.language) == Some(|entries|)
  {
    var all := entries + [e];
    assert Matches(all[|entries|], e.word, e.language);
    forall j | 0 <= j < |entries| ensures !Matches(all[j], e.word, e.language) {
      assert all[j] == entries[j];
    }
  }

  /** Appending an entry for another pair does not change a lookup. */
  lemma {:induction false} FindUnaffected(entries: seq<Entry>, e: Entry, word: string, language: string)
    requires !Matches(e, word, language)
    ensures Find(entries + [e], word, language) == Find(entries, word, language)
  {
    if entries != [] {
      assert (entries + [e])[1..] == entries[1..] + [e];
      FindUnaffected(entries[1..], e, word, language);
    }
  }

  /** What one request does: the exchange, and the entry it creates, if any. */
  datatype Outcome = Outcome(exchange: Exchange<Entry>, created: Option<Entry>)

  /** The `GET` handler over a store holding `entries` that will assign
      `nextId` next. `word` and `language` are the query parameters (`None`
      when absent), `configured` says whether the credential is set and
      non-empty, `reply` is what the miss path gets back if it calls, `now`
      the creation time the store records. */
  function Handle(entries: seq<Entry>, nextId: nat, word: Option<string>, language: Option<string>,
                  configured: bool, reply: Reply, now: int): (o: Outcome)
    // parameter check first: 400, the store is neither read nor written
    ensures !Given(word) || !Given(language) ==>
      o == Outcome(Exchange(None, Err(400, WordAndLanguageRequired)), None)
    // a hit returns the stored entry, with no call and no write, credential or not
    ensures Given(word) && Given(language) && Find(entries, word.value, language.value).Some? ==>
      o == Outcome(Exchange(None, Ok(entries[Find(entries, word.value, language.value).value])), None)
    // the endpoint is called exactly on a miss with the credential set
    ensures o.exchange.call.Some? <==>
      Given(word) && Given(language) && Find(entries, word.value, language.value).None? && configured
    ensures o.exchange.call.Some? ==> o.exchange.call.value == ChatCall(Instruction(word.value, language.value), None, true)
    ensures Given(word) && Given(language) && Find(entries, word.value, language.value).None? && !configured ==>
      o == Outcome(Exchange(None, Err(500, KeyNotConfigured)), None)
    ensures o.exchange.call.Some? && reply.Unavailable? ==> o == Outcome(o.exchange, None) && o.exchange.response == Err(503, ServiceUnavailable)
    ensures o.exchange.call.Some? && reply.Unparsable? ==> o == Outcome(o.exchange, None) && o.exchange.response == Err(500, FailedToParse)
    // a write happens only on a successful miss, with the request's pair verbatim and a fresh id
    ensures o.created.Some? <==> o.exchange.call.Some? && reply.Parsed? && Interpret(reply.result).Some?
    ensures o.created.Some? ==>
      var d := Interpret(reply.result).value;
      o.created.value == Entry(nextId, word.value, language.value, d.definition, d.partOfSpeech, d.examples, now)
      && o.exchange.response == Ok(o.created.value)
    ensures o.exchange.call.Some? && reply.Parsed? && o.created.None? ==> o.exchange.response == Err(503, ServiceUnavailable)
  {
    if !Given(word) || !Given(language) then
      Outcome(Exchange(None, Err(400, WordAndLanguageRequired)), None)
    else
      var (w, l) := (word.value, language.value);
      match Find(entries, w, l)
      case Some(i) => Outcome(Exchange(None, Ok(entries[i])), None)
      case None =>
        if !configured then Outcome(Exchange(None, Err(500, KeyNotConfigured)), None)
        else
          var call := Some(ChatCall(Instruction(w, l), None, true));
          match reply
          case Unavailable => Outcome(Exchange(call, Err(503, ServiceUnavailable)), None)
          case Unparsable => Outcome(Exchange(call, Err(500, FailedToParse)), None)
          case Parsed(result) =>
            match Interpret(result)
            case None => Outcome(Exchange(call, Err(503, ServiceUnavailable)), None)
            case Some(d) =>
              var e := Entry(nextId, w, l, d.definition, d.partOfSpeech, d.examples, now);
              Outcome(Exchange(call, Ok(e)), Some(e))
  }

  /** A reply whose `examples` is an object with its own `toString` member
      makes the conversion of line 83 throw: after the call the request is
      answered 503 and nothing is written. */
  lemma OwnToStringExamplesUnavailable(entries: seq<Entry>, nextId: nat, word: string, language: string, now: int)
    requires word != "" && language != "" && Find(entries, word, language).None?
    ensures var result := Object([Member("examples", Object([Member("toString", Str("x"))]))]);
            Handle(entries, nextId, Some(word), Some(language), true, Reply.Parsed(result), now)
              == Outcome(Exchange(Some(ChatCall(Instruction(word, language), None, true)), Err(503, ServiceUnavailable)), None)
  {
    var inner := [Member("toString", Str("x"))];
    assert inner[0].key == "toString";
    var members := [Member("examples", Object(inner))];
    assert LastValue(members, "examples") == Object(inner);
  }

  /** The store after a request: one more entry on a successful miss. */
  function After(entries: seq<Entry>, o: Outcome): seq<Entry> {
    if o.created.Some? then entries + [o.created.value] else entries
  }

  /** Cache-hit determinism: once a lookup succeeds, the next lookup of the
      same pair is a hit that returns the same entry and makes no call,
      whatever the credential and the reply are then. */
  lemma {:induction false} LookupThenHit(entries: seq<Entry>, nextId: nat, word: Option<string>, language: Option<string>,
                                         configured: bool, reply: Reply, now: int,
                                         configured': bool, reply': Reply, now': int)
    requires Handle(entries, nextId, word, language, configured, reply, now).exchange.response.Ok?
    ensures var o := Handle(entries, nextId, word, language, configured, reply, now);
            var nextId' := if o.created.Some? then nextId + 1 else nextId;
            Handle(After(entries, o), nextId', word, language, configured', reply', now')
              == Outcome(Exchange(None, o.exchange.response), None)
  {
    var o := Handle(entries, nextId, word, language, configured, reply, now);
    if o.created.Some? {
      FindAppended(entries, o.created.value);
    }
  }

  /** A request leaves every other pair's lookup as it was. */
  lemma {:induction false} OtherPairsUnaffected(entries: seq<Entry>, nextId: nat, word: Option<string>, language: Option<string>,
                                                configured: bool, reply: Reply, now: int, word': string, language': string)
    requires Given(word) && Given(language) && (word.value, language.value) != (word', language')
    ensures var o := Handle(entries, nextId, word, language, configured, reply, now);
            Find(After(entries, o), word', language') == Find(entries, word', language')
  {
    var o := Handle(entries, nextId, word, language, configured, reply, now);
    if o.created.Some? {
      FindUnaffected(entries, o.created.value, word', language');
    }
  }

  /** The table, as far as this handler uses it: rows in insertion order and
      the next identifier the store will assign. */
  class Store {
    var entries: seq<Entry>
    var nextId: nat

    /** Identifiers are increasing and below `nextId`; without concurrent
        misses no pair is stored twice. */
    ghost predicate Valid()
      reads this
    {
      (forall i :: 0 <= i < |entries| ==> entries[i].id < nextId)
      && (forall i, j :: 0 <= i < j < |entries| ==> entries[i].id < entries[j].id)
      && (forall i, j :: 0 <= i < j < |entries| ==> !Matches(entries[j], entries[i].word, entries[i].language))
    }

    constructor ()
      ensures Valid() && entries == [] && nextId == 1
    {
      entries := [];
      nextId := 1;
    }

    /** `prisma.dictionaryEntry.create`: appends one row with a fresh id. */
    method Create(word: string, language: string, d: Definition, now: int) returns (e: Entry)
      requires Valid()
      requires Find(entries, word, language).None?
      modifies this
      ensures Valid()
      ensures e == Entry(old(nextId), word, language, d.definition, d.partOfSpeech, d.examples, now)
      ensures entries == old(entries) + [e] && nextId == old(nextId) + 1
    {
      e := Entry(nextId, word, language, d.definition, d.partOfSpeech, d.examples, now);
      entries := entries + [e];
      nextId := nextId + 1;
    }

    /** The handler run against this store: answers as `Handle` does and
        appends the entry it creates, and nothing else. */
    method Lookup(word: Option<string>, language: Option<string>, configured: bool, reply: Reply, now: int)
      returns (x: Exchange<Entry>)
      requires Valid()
      modifies this
      ensures Valid()
      ensures var o := Handle(old(entries), old(nextId), word, language, configured, reply, now);
              x == o.exchange && entries == After(old(entries), o)
              && nextId == if o.created.Some? then old(nextId) + 1 else old(nextId)
    {
      if !Given(word) || !Given(language) {
        return Exchange(None, Err(400, WordAndLanguageRequired));
      }
      var w, l := word.value, language.value;
      var existing := Find(entries, w, l);
      if existing.Some? {
        return Exchange(None, Ok(entries[existing.value]));
      }
      if !configured {
        return Exchange(None, Err(500, KeyNotConfigured));
      }
      var call := Some(ChatCall(Instruction(w, l), None, true));
      match reply {
        case Unavailable =>
          x := Exchange(call, Err(503, ServiceUnavailable));
        case Unparsable =>
          x := Exchange(call, Err(500, FailedToParse));
        case Parsed(result) =>
          var d := Interpret(result);
          if d.None? {
            x := Exchange(call, Err(503, ServiceUnavailable));
          } else {
            var e := Create(w, l, d.value, now);
            x := Exchange(call, Ok(e));
          }
      }
    }
  }

  /** Two lookups of the same pair in a row on one store: once the first
      succeeds, the second returns the same entry without a call. */
  method LookupTwice(store: Store, word: Option<string>, language: Option<string>,
                     configured: bool, reply: Reply, now: int,
                     configured': bool, reply': Reply, now': int)
    returns (first: Exchange<Entry>, second: Exchange<Entry>)
    requires store.Valid()
    modifies store
    ensures store.Valid()
    ensures first.response.Ok? ==> second == Exchange(None, first.response)
  {
    ghost var entries, nextId := store.entries, store.nextId;
    first := store.Lookup(word, language, configured, reply, now);
    second := store.Lookup(word, language, configured', reply', now');
    if first.response.Ok? {
      LookupThenHit(entries, nextId, word, language, configured, reply, now, configured', reply', now');
    }
  }
}
