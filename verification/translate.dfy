/** The `POST /api/translate` handler: validates the three fields, picks one
    of two instruction templates on the "auto" sentinel, and returns the
    trimmed reply with a random list key in [0, 1000). */
module Translate {
  import opened Wrappers
  import opened Text
  import opened Json
  import opened Http
  import Languages

  datatype Translation = Translation(translatedText: string, id: int)

  const MissingParameters := "Missing required parameters"
  const ServiceUnavailable := "Translation service unavailable"
  const FailedToTranslate := "Failed to translate text"

  const Persona := "You are a professional translator. "
  const Closing := ". Only respond with the translated text, no commentary, make the response concise and correct as possible"

  /** The template for the "auto" source: detect, then translate to the target. */
  function AutoPrompt(target: string): string {
    Persona + "Detect" + " the language of the provided text and translate it to " + target + Closing
  }

  /** The template naming both the source and the target language. */
  function ExplicitPrompt(source: string, target: string): string {
    Persona + "Translate" + " the following text from " + source + " to " + target + Closing
  }

  /** Lines 31-34: strict equality with "auto" selects the detecting template;
      the languages are interpolated with `String`. `None` when that
      interpolation throws, which only the languages the chosen template
      names can make it do. */
  function SystemPrompt(source: Value, target: Value): (r: Option<string>)
    ensures r.Some? <==> ToString(target).Some? && (source == Str(Languages.Auto) || ToString(source).Some?)
    ensures r.Some? && source == Str(Languages.Auto) ==> r.value == AutoPrompt(ToString(target).value)
    ensures r.Some? && source != Str(Languages.Auto) ==> r.value == ExplicitPrompt(ToString(source).value, ToString(target).value)
  {
    var t := ToString(target);
    if source == Str(Languages.Auto) then
      if t.None? then None else Some(AutoPrompt(t.value))
    else
      var s := ToString(source);
      if s.None? || t.None? then None else Some(ExplicitPrompt(s.value, t.value))
  }

  /** The two templates never coincide: the instruction path is observable. */
  lemma PromptsDiffer(target: string, source': string, target': string)
    ensures AutoPrompt(target) != ExplicitPrompt(source', target')
  {
    assert |Persona| == 35;
    assert AutoPrompt(target)[35] == (Persona + "Detect")[35] == 'D';
    assert ExplicitPrompt(source', target')[35] == (Persona + "Translate")[35] == 'T';
  }

  /** Both templates embed the target language. */
  lemma {:induction false} PromptEmbedsTarget(source: Value, target: Value)
    requires SystemPrompt(source, target).Some?
    ensures Contains(SystemPrompt(source, target).value, ToString(target).value)
  {
    var t := ToString(target).value;
    if source == Str(Languages.Auto) {
      var lead := Persona + "Detect" + " the language of the provided text and translate it to ";
      OccursAtEnd(lead, t);
      OccursAtExtend(lead + t, Closing, t, |lead|);
      assert SystemPrompt(source, target).value == lead + t + Closing;
    } else {
      var lead := Persona + "Translate" + " the following text from " + ToString(source).value + " to ";
      OccursAtEnd(lead, t);
      OccursAtExtend(lead + t, Closing, t, |lead|);
      assert SystemPrompt(source, target).value == lead + t + Closing;
    }
  }

  /** The explicit template embeds the source language. */
  lemma {:induction false} ExplicitPromptEmbedsSource(source: Value, target: Value)
    requires source != Str(Languages.Auto) && SystemPrompt(source, target).Some?
    ensures Contains(SystemPrompt(source, target).value, ToString(source).value)
  {
    var s, t := ToString(source).value, ToString(target).value;
    assert SystemPrompt(source, target).value == ExplicitPrompt(s, t);
    var lead := Persona + "Translate" + " the following text from ";
    OccursAtEnd(lead, s);
    OccursAtExtend(lead + s, " to ", s, |lead|);
    OccursAtExtend(lead + s + " to ", t, s, |lead|);
    OccursAtExtend(lead + s + " to " + t, Closing, s, |lead|);
  }

  /** A target language given as an object with its own `toString` member
      cannot be interpolated: the request is answered 503 and no call is
      made. */
  lemma OwnToStringTargetUnavailable(reply: Reply, draw: real)
    requires 0.0 <= draw < 1.0
    ensures var target := Object([Member("toString", Number("1"))]);
            Respond(Str("hi"), Str("en"), target, true, reply, draw) == Exchange(None, Err(503, ServiceUnavailable))
  {
    var members := [Member("toString", Number("1"))];
    assert members[0].key == "toString";
  }

  /** The three members of the body; `None` when destructuring throws. */
  function Fields(body: Body): Option<(Value, Value, Value)> {
    if body.Malformed? || body.root.Null? || body.root.Undefined? then None
    else Some((Property(body.root, "text").value,
               Property(body.root, "sourceLanguage").value,
               Property(body.root, "targetLanguage").value))
  }

  /** Line 15 lets the request through: all three members are truthy. */
  predicate Complete(body: Body) {
    Fields(body).Some? && Truthy(Fields(body).value.0)
    && Truthy(Fields(body).value.1) && Truthy(Fields(body).value.2)
  }

  /** `Math.floor(Math.random() * 1000)` for a draw in [0, 1). */
  function ListKey(draw: real): (id: int)
    requires 0.0 <= draw < 1.0
    ensures 0 <= id < 1000
  {
    (draw * 1000.0).Floor
  }

  /** Lines 15-73, once the three members are destructured. `configured`
      says whether the credential is set and non-empty, `reply` is what the
      endpoint answers if called and `draw` is the value `Math.random()`
      returns. A prompt that cannot be built throws inside the inner `try`
      and is answered like a failed call, without calling. */
  function Respond(text: Value, source: Value, target: Value, configured: bool, reply: Reply, draw: real): (x: Exchange<Translation>)
    requires 0.0 <= draw < 1.0
    ensures x.call.Some? <==> Truthy(text) && Truthy(source) && Truthy(target) && configured && SystemPrompt(source, target).Some?
    ensures x.call.Some? ==> x.call.value == ChatCall(SystemPrompt(source, target).value, Some(text), false)
    ensures x.response.Status() == 400 <==> !(Truthy(text) && Truthy(source) && Truthy(target))
    ensures Truthy(text) && Truthy(source) && Truthy(target) && !configured ==> x.response == Err(500, KeyNotConfigured)
    ensures Truthy(text) && Truthy(source) && Truthy(target) && configured && SystemPrompt(source, target).None? ==>
              x.response == Err(503, ServiceUnavailable)
    ensures x.response.Status() == 503 <==>
              Truthy(text) && Truthy(source) && Truthy(target) && configured
              && (SystemPrompt(source, target).None? || reply.Unavailable?)
    ensures x.response.Ok? <==> x.call.Some? && reply.Content?
    ensures x.response.Ok? ==> 0 <= x.response.value.id < 1000
    ensures x.response.Ok? ==> x.response.value.translatedText == Trim(reply.text)
    ensures x.response.Err? ==> x.response.status in {400, 500, 503}
  {
    if !Truthy(text) || !Truthy(source) || !Truthy(target) then
      Exchange(None, Err(400, MissingParameters))
    else if !configured then Exchange(None, Err(500, KeyNotConfigured))
    else
      var prompt := SystemPrompt(source, target);
      if prompt.None? then Exchange(None, Err(503, ServiceUnavailable))
      else
        var call := Some(ChatCall(prompt.value, Some(text), false));
        match reply
        case Unavailable => Exchange(call, Err(503, ServiceUnavailable))
        case Content(content) => Exchange(call, Ok(Translation(Trim(content), ListKey(draw))))
  }

  /** The languages of a complete body make a prompt. */
  predicate Renders(body: Body)
    requires Fields(body).Some?
  {
    SystemPrompt(Fields(body).value.1, Fields(body).value.2).Some?
  }

  /** The `POST` handler: a body that cannot be destructured is answered
      with 500, any other goes to `Respond`. */
  function Handle(body: Body, configured: bool, reply: Reply, draw: real): (x: Exchange<Translation>)
    requires 0.0 <= draw < 1.0
    ensures x.call.Some? <==> Complete(body) && configured && Renders(body)
    ensures x.call.Some? ==>
      var (text, source, target) := Fields(body).value;
      x.call.value == ChatCall(SystemPrompt(source, target).value, Some(text), false)
    ensures Fields(body).None? ==> x.response == Err(500, FailedToTranslate)
    ensures x.response.Status() == 400 <==> Fields(body).Some? && !Complete(body)
    ensures Complete(body) && !configured ==> x.response == Err(500, KeyNotConfigured)
    ensures x.response.Status() == 503 <==> Complete(body) && configured && (!Renders(body) || reply.Unavailable?)
    ensures x.response.Ok? <==> x.call.Some? && reply.Content?
    ensures x.response.Ok? ==> 0 <= x.response.value.id < 1000
    ensures x.response.Ok? ==> x.response.value.translatedText == Trim(reply.text)
    ensures x.response.Err? ==> x.response.status in {400, 500, 503}
  {
    match Fields(body)
    case None => Exchange(None, Err(500, FailedToTranslate))
    case Some((text, source, target)) => Respond(text, source, target, configured, reply, draw)
  }

  /** The body `JSON.stringify({ text, sourceLanguage, targetLanguage })`
      reads back as on the server. */
  function RequestBody(text: string, source: string, target: string): Value {
    Object([Member("text", Str(text)), Member("sourceLanguage", Str(source)), Member("targetLanguage", Str(target))])
  }

  lemma RequestBodyFields(text: string, source: string, target: string)
    ensures Fields(Parsed(RequestBody(text, source, target))) == Some((Str(text), Str(source), Str(target)))
  {
    var m1 := [Member("text", Str(text))];
    var m2 := m1 + [Member("sourceLanguage", Str(source))];
    var m3 := m2 + [Member("targetLanguage", Str(target))];
    assert RequestBody(text, source, target) == Object(m3);
    assert LastValue(m3, "text") == Str(text) by {
      LastValueSnoc([], m1[0], "text");
      assert [] + [m1[0]] == m1;
      LastValueSnoc(m1, m2[1], "text");
      LastValueSnoc(m2, m3[2], "text");
    }
    assert LastValue(m3, "sourceLanguage") == Str(source) by {
      LastValueSnoc(m1, m2[1], "sourceLanguage");
      LastValueSnoc(m2, m3[2], "sourceLanguage");
    }
    assert LastValue(m3, "targetLanguage") == Str(target) by {
      LastValueSnoc(m2, m3[2], "targetLanguage");
    }
  }

  /** What the translator component sends is handled as its three strings. */
  lemma SentBodyHandled(text: string, source: string, target: string, configured: bool, reply: Reply, draw: real)
    requires 0.0 <= draw < 1.0
    ensures Handle(Parsed(RequestBody(text, source, target)), configured, reply, draw)
         == Respond(Str(text), Str(source), Str(target), configured, reply, draw)
  {
    RequestBodyFields(text, source, target);
  }

  /** Unlike language detection, whitespace-only text passes validation and
      is sent for translation. */
  lemma {:induction false} BlankTextIsTranslated(text: string, source: string, target: string, reply: Reply, draw: real)
    requires text != "" && AllWhitespace(text) && source != "" && target != ""
    requires 0.0 <= draw < 1.0
    ensures Handle(Parsed(RequestBody(text, source, target)), true, reply, draw).call.Some?
    ensures Trim(text) == ""
  {
    TrimEmptyIffBlank(text);
    RequestBodyFields(text, source, target);
  }

  /** Line 15 lets three non-empty strings through: the answer is never 400. */
  lemma NonEmptyStringsAccepted(text: string, source: string, target: string,
                                configured: bool, reply: Reply, draw: real)
    requires text != "" && source != "" && target != ""
    requires 0.0 <= draw < 1.0
    ensures Respond(Str(text), Str(source), Str(target), configured, reply, draw).response.Status() != 400
  {
  }

  /** Three non-empty strings always pass validation: the answer is never 400. */
  lemma {:induction false} NonEmptyFieldsAccepted(text: string, source: string, target: string,
                                                  configured: bool, reply: Reply, draw: real)
    requires text != "" && source != "" && target != ""
    requires 0.0 <= draw < 1.0
    ensures Handle(Parsed(RequestBody(text, source, target)), configured, reply, draw).response.Status() != 400
  {
    RequestBodyFields(text, source, target);
  }
}
