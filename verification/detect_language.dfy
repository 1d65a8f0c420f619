/** The `POST /api/detect-language` handler: validates the text, asks the
    completion endpoint for the ISO code of its language, and normalises the
    free-form reply into a code of lower-case ASCII letters. */
module DetectLanguage {
  import opened Wrappers
  import opened Text
  import opened Json
  import opened Http

  predicate IsLowerLetter(c: char) {
    'a' <= c <= 'z'
  }

  /** A normalised code: nothing but `a`..`z`, possibly empty. */
  predicate IsCode(s: string) {
    forall i :: 0 <= i < |s| ==> IsLowerLetter(s[i])
  }

  /** The longest prefix without an ASCII space; other whitespace does not
      split. `FirstTokenIsSplitHead` shows it is what lines 50-52 compute. */
  function FirstToken(s: string): (r: string)
    ensures |r| <= |s| && r == s[..|r|]
    ensures ' ' !in r
    ensures |r| < |s| ==> s[|r|] == ' '
  {
    if s == [] || s[0] == ' ' then [] else [s[0]] + FirstToken(s[1..])
  }

  /** `if (s.includes(" ")) s = s.split(" ")[0]` is the first token. */
  lemma FirstTokenIsSplitHead(s: string)
    ensures FirstToken(s) == if ' ' in s then Split(s, ' ')[0] else s
  {
    if ' ' in s {
      var parts := Split(s, ' ');
      assert s == parts[0] + " " + Join(parts[1..], " ");
      assert s[..|parts[0]|] == parts[0];
      FirstTokenUnique(s, parts[0]);
    } else {
      FirstTokenUnique(s, s);
    }
  }

  /** `s.replace(/[^a-z]/g, "")`: keeps the characters `a`..`z`, in order,
      and deletes every other one. */
  function KeepLetters(s: string): (r: string)
    ensures IsCode(r)
    ensures IsSubsequence(r, s)
    ensures IsCode(s) ==> r == s
    ensures |r| <= |s|
  {
    if s == [] then []
    else if IsLowerLetter(s[0]) then [s[0]] + KeepLetters(s[1..])
    else KeepLetters(s[1..])
  }

  /** The reply normalisation of lines 46-54: trim, lower-case, first
      space-delimited token, letters `a`..`z` only. */
  function NormalizeCode(reply: string): (code: string)
    ensures IsCode(code)
  {
    KeepLetters(FirstToken(ToLower(Trim(reply))))
  }

  /** The code is what is left of the trimmed, lower-cased reply up to its
      first space after deleting characters. */
  lemma NormalizeIsSubsequence(reply: string)
    ensures IsSubsequence(NormalizeCode(reply), FirstToken(ToLower(Trim(reply))))
  {
  }

  /** A code is a fixed point of every step of the normalisation. */
  lemma CodeIsFixedPoint(c: string)
    requires IsCode(c)
    ensures NormalizeCode(c) == c
  {
    assert c == [] || (IsLowerLetter(c[0]) && IsLowerLetter(c[|c| - 1]));
    TrimKeepsUnpadded(c);
    assert ToLower(c) == c;
    assert ' ' !in c by {
      forall i | 0 <= i < |c| ensures c[i] != ' ' {
        assert IsLowerLetter(c[i]);
      }
    }
  }

  /** Normalising a normalised code gives it back unchanged. */
  lemma {:induction false} NormalizeIdempotent(reply: string)
    ensures NormalizeCode(NormalizeCode(reply)) == NormalizeCode(reply)
  {
    CodeIsFixedPoint(NormalizeCode(reply));
  }

  /** The reference reading of the normalisation, letter by letter: `a`..`z`
      kept, `A`..`Z` kept as the matching lower-case letter, anything else
      dropped. */
  function FoldLetters(s: string): string {
    if s == [] then []
    else if IsLowerLetter(s[0]) then [s[0]] + FoldLetters(s[1..])
    else if 'A' <= s[0] <= 'Z' then [LowerChar(s[0])] + FoldLetters(s[1..])
    else FoldLetters(s[1..])
  }

  lemma {:induction false} KeepLettersOfLower(s: string)
    ensures KeepLetters(ToLower(s)) == FoldLetters(s)
  {
    if s != [] {
      assert ToLower(s)[1..] == ToLower(s[1..]);
      KeepLettersOfLower(s[1..]);
    }
  }

  /** The three facts of `FirstToken` determine it. */
  lemma FirstTokenUnique(s: string, p: string)
    requires |p| <= |s| && p == s[..|p|] && ' ' !in p
    requires |p| < |s| ==> s[|p|] == ' '
    ensures p == FirstToken(s)
  {
    var r := FirstToken(s);
    if |p| < |r| {
      assert false;
    } else if |r| < |p| {
      assert false;
    }
  }

  /** Lower-casing first or taking the first token first makes no difference. */
  lemma FirstTokenOfLower(s: string)
    ensures FirstToken(ToLower(s)) == ToLower(FirstToken(s))
  {
    var t := FirstToken(s);
    var l := ToLower(s);
    assert ToLower(t) == l[..|t|];
    assert ' ' !in ToLower(t) by {
      forall i | 0 <= i < |t| ensures ToLower(t)[i] != ' ' {
        assert t[i] != ' ';
      }
    }
    FirstTokenUnique(l, ToLower(t));
  }

  /** Upper-case `A`..`Z` in the first token survive as lower-case letters:
      the code is the letters of the trimmed reply's first token, case-folded. */
  lemma {:induction false} NormalizeFoldsCase(reply: string)
    ensures NormalizeCode(reply) == FoldLetters(FirstToken(Trim(reply)))
  {
    FirstTokenOfLower(Trim(reply));
    KeepLettersOfLower(FirstToken(Trim(reply)));
  }

  /** Only the ASCII space splits: a reply without one keeps all its letters,
      whatever other whitespace separates them. */
  lemma {:induction false} NoSpaceKeepsAllLetters(reply: string)
    requires ' ' !in reply
    ensures NormalizeCode(reply) == FoldLetters(Trim(reply))
  {
    NormalizeFoldsCase(reply);
    TrimChars(reply);
    var t := Trim(reply);
    assert ' ' !in t;
    FirstTokenUnique(t, t);
  }

  /** A newline between two codes is deleted rather than splitting them. */
  lemma NewlineDoesNotSplit()
    ensures NormalizeCode("en\nfr") == "enfr"
  {
    var s := "en\nfr";
    assert Trim(s) == s by {
      TrimKeepsUnpadded(s);
    }
    assert FoldLetters(s) == "enfr" by {
      assert FoldLetters("fr") == "fr";
      assert FoldLetters("\nfr") == "fr";
    }
    NoSpaceKeepsAllLetters(s);
  }

  /** A chatty reply: its first token is kept, case-folded, the comma dropped. */
  lemma ChattyReply()
    ensures NormalizeCode("Es, Spanish") == "es"
  {
    var s := "Es, Spanish";
    assert FoldLetters("Es,") == "es" by {
      assert FoldLetters(",") == "";
      assert FoldLetters("s,") == "s";
    }
    assert FirstToken(s) == "Es," by {
      assert s[..3] == "Es," && s[3] == ' ';
      assert ' ' !in "Es,";
      FirstTokenUnique(s, "Es,");
    }
    assert Trim(s) == s by {
      TrimKeepsUnpadded(s);
    }
    assert NormalizeCode(s) == FoldLetters(FirstToken(Trim(s))) by {
      NormalizeFoldsCase(s);
    }
  }

  const Instruction := "You are a language detection system. You will be given a text, and you must detect what language it is written in. Respond with just the ISO language code (e.g., 'en' for English, 'es' for Spanish, 'fr' for French, 'vi' for Vietnamese). Only provide the language code, nothing else."
  const TextRequired := "Text is required"
  const DetectionFailed := "Error"
  const FailedToDetect := "Failed to detect language"

  /** The `text` member of the body; `None` when reading it throws. */
  function TextField(body: Body): Option<Value> {
    if body.Malformed? then None else Property(body.root, "text")
  }

  /** The request passes validation: `text` is a string that is not blank. */
  predicate ValidText(body: Body) {
    TextField(body).Some? && TextField(body).value.Str? && Trim(TextField(body).value.s) != ""
  }

  /** The cases line 8 answers with 400: `text` absent or falsy, or a string
      that trims to nothing. */
  predicate MissingText(body: Body) {
    TextField(body).Some? &&
    var v := TextField(body).value;
    !Truthy(v) || (v.Str? && Trim(v.s) == "")
  }

  /** Lines 8-59, once `text` is destructured. `configured` says whether
      the credential is set and non-empty; `reply` is what the completion
      endpoint answers if called. */
  function Respond(text: Value, configured: bool, reply: Reply): (x: Exchange<string>)
    ensures x.call.Some? <==> text.Str? && Trim(text.s) != "" && configured
    ensures x.call.Some? ==> x.call.value == ChatCall(Instruction, Some(text), false)
    ensures x.response.Status() == 400 <==> !Truthy(text) || (text.Str? && Trim(text.s) == "")
    ensures text.Str? && Trim(text.s) != "" && !configured ==> x.response == Err(500, KeyNotConfigured)
    ensures x.response.Status() == 503 <==> text.Str? && Trim(text.s) != "" && configured && reply.Unavailable?
    ensures x.response.Ok? <==> text.Str? && Trim(text.s) != "" && configured && reply.Content?
    ensures x.response.Ok? ==> IsCode(x.response.value) && x.response.value == NormalizeCode(reply.text)
    ensures x.response.Err? ==> x.response.status in {400, 500, 503}
  {
    if !Truthy(text) then Exchange(None, Err(400, TextRequired))
    // `text.trim` is not a function on a non-string value: the outer catch
    else if !text.Str? then Exchange(None, Err(500, FailedToDetect))
    else if Trim(text.s) == "" then Exchange(None, Err(400, TextRequired))
    else if !configured then Exchange(None, Err(500, KeyNotConfigured))
    else
      var call := Some(ChatCall(Instruction, Some(text), false));
      match reply
      case Unavailable => Exchange(call, Err(503, DetectionFailed))
      case Content(content) => Exchange(call, Ok(NormalizeCode(content)))
  }

  /** The `POST` handler: a body that cannot be destructured is answered
      with 500, any other goes to `Respond`. */
  function Handle(body: Body, configured: bool, reply: Reply): (x: Exchange<string>)
    ensures x.call.Some? <==> ValidText(body) && configured
    ensures x.call.Some? ==> x.call.value == ChatCall(Instruction, TextField(body), false)
    ensures TextField(body).None? ==> x.response == Err(500, FailedToDetect)
    ensures x.response.Status() == 400 <==> MissingText(body)
    ensures ValidText(body) && !configured ==> x.response == Err(500, KeyNotConfigured)
    ensures x.response.Status() == 503 <==> ValidText(body) && configured && reply.Unavailable?
    ensures x.response.Ok? <==> ValidText(body) && configured && reply.Content?
    ensures x.response.Ok? ==> IsCode(x.response.value) && x.response.value == NormalizeCode(reply.text)
    ensures x.response.Err? ==> x.response.status in {400, 500, 503}
  {
    match TextField(body)
    case None => Exchange(None, Err(500, FailedToDetect))
    case Some(text) => Respond(text, configured, reply)
  }

  /** The body `JSON.stringify({ text })` reads back as on the server. */
  function RequestBody(text: string): Value {
    Object([Member("text", Str(text))])
  }

  /** Text that is not blank, sent as the translator component sends it,
      always passes validation: the answer is never 400. */
  lemma {:induction false} NonBlankTextAccepted(text: string, configured: bool, reply: Reply)
    requires Trim(text) != ""
    ensures ValidText(Parsed(RequestBody(text)))
    ensures Handle(Parsed(RequestBody(text)), configured, reply).response.Status() != 400
  {
    assert TextField(Parsed(RequestBody(text))) == Some(Str(text));
  }

  /** A string that is not blank passes validation: the answer is never 400. */
  lemma {:induction false} NonBlankStringAccepted(text: string, configured: bool, reply: Reply)
    requires Trim(text) != ""
    ensures Respond(Str(text), configured, reply).response.Status() != 400
  {
    TrimChars(text);
  }

  /** What the translator component sends is handled as its string. */
  lemma SentTextHandled(text: string, configured: bool, reply: Reply)
    ensures Handle(Parsed(RequestBody(text)), configured, reply) == Respond(Str(text), configured, reply)
  {
    assert TextField(Parsed(RequestBody(text))) == Some(Str(text));
  }
}
