/** The translator component's state transitions: the language selectors,
    the swap button, the automatic detection of the source language and the
    translate button. Rendering is not modelled; each handler runs to
    completion against the route it calls. */
module TranslatorComponent {
  import opened Wrappers
  import opened Text
  import opened Json
  import opened Http
  import opened Languages
  import DetectLanguage
  import Translate

  /** The fields the handlers read and write. */
  datatype View = View(sourceLanguage: string, targetLanguage: string, sourceText: string,
                       translatedText: string, detectedLanguage: string)

  lemma CodesCons(x: Language, table: seq<Language>)
    ensures Codes([x] + table) == {x.code} + Codes(table)
  {
    var t := [x] + table;
    assert t[0].code == x.code;
    forall c | c in Codes(t) ensures c in {x.code} + Codes(table) {
      var i :| 0 <= i < |t| && t[i].code == c;
      if i > 0 { assert table[i - 1].code == c; }
    }
    forall c | c in Codes(table) ensures c in Codes(t) {
      var i :| 0 <= i < |table| && table[i].code == c;
      assert t[i + 1].code == c;
    }
  }

  /** `languages.filter(lang => lang.code !== "auto")`. */
  function WithoutAuto(table: seq<Language>): (r: seq<Language>)
    ensures Codes(r) == Codes(table) - {Auto}
  {
    if table == [] then []
    else
      var rest := WithoutAuto(table[1..]);
      assert table == [table[0]] + table[1..];
      CodesCons(table[0], table[1..]);
      if table[0].code == Auto then rest
      else
        CodesCons(table[0], rest);
        [table[0]] + rest
  }

  /** Lines 158-160: the target selector offers every language but the sentinel. */
  function TargetOptions(): (r: seq<Language>)
    ensures Auto !in Codes(r)
    ensures forall c :: c in Codes(r) <==> c in Codes(Table) && c != Auto
  {
    WithoutAuto(Table)
  }

  /** Every language code in the table is non-empty. */
  lemma TableCodesNonEmpty()
    ensures forall c :: c in Codes(Table) ==> c != ""
  {
  }

  /** The codes the two selectors hold are non-empty. */
  lemma SelectedCodesNonEmpty(source: string, target: string)
    requires source in Codes(Table) && target in Codes(Table)
    ensures source != "" && target != ""
  {
    TableCodesNonEmpty();
  }

  /** What `handleTranslate` sends for non-blank text and two selected
      codes passes the route's validation: the answer is never 400. */
  lemma {:induction false} SentTranslationAccepted(text: string, selected: string, detected: string, target: string,
                                                   configured: bool, reply: Reply, draw: real)
    requires Trim(text) != "" && selected in Codes(Table) && target in Codes(Table)
    requires 0.0 <= draw < 1.0
    ensures Translate.Respond(Str(text), Str(EffectiveSource(selected, detected)), Str(target),
                              configured, reply, draw).response.Status() != 400
  {
    TrimChars(text);
    SelectedCodesNonEmpty(selected, target);
    Translate.NonEmptyStringsAccepted(text, EffectiveSource(selected, detected), target, configured, reply, draw);
  }

  /** `handleSwap` (lines 88-101): nothing on the "auto" source; otherwise
      the languages are exchanged and, when there is a translation, the two
      texts are exchanged as they were before the swap. */
  function Swapped(v: View): View {
    if v.sourceLanguage == Auto then v
    else if v.translatedText != "" then
      v.(sourceLanguage := v.targetLanguage, targetLanguage := v.sourceLanguage,
         sourceText := v.translatedText, translatedText := v.sourceText)
    else
      v.(sourceLanguage := v.targetLanguage, targetLanguage := v.sourceLanguage)
  }

  /** A swap that happens exchanges the languages; the target never being
      "auto", the new source is not "auto" and neither is the new target. */
  lemma SwapExchangesLanguages(v: View)
    requires v.sourceLanguage != Auto && v.targetLanguage != Auto
    ensures Swapped(v).sourceLanguage == v.targetLanguage && Swapped(v).targetLanguage == v.sourceLanguage
    ensures Swapped(v).sourceLanguage != Auto && Swapped(v).targetLanguage != Auto
    ensures Swapped(v).detectedLanguage == v.detectedLanguage
  {
  }

  /** Swapping twice restores the state when the first swap either moved no
      text or moved a non-empty source text into the translation box. */
  lemma SwapTwiceRestores(v: View)
    requires v.sourceLanguage != Auto && v.targetLanguage != Auto
    requires v.sourceText != "" || v.translatedText == ""
    ensures Swapped(Swapped(v)) == v
  {
  }

  /** With an empty source text and a translation, the first swap moves the
      translation to the source and the second does not move it back. */
  lemma SwapTwiceKeepsMovedText(v: View)
    requires v.sourceLanguage != Auto && v.targetLanguage != Auto
    requires v.sourceText == "" && v.translatedText != ""
    ensures Swapped(Swapped(v)) == v.(sourceText := v.translatedText, translatedText := "")
  {
  }

  /** Lines 59-60: the selected language, or for "auto" the detected one,
      falling back to "en" when nothing was detected. */
  function EffectiveSource(selected: string, detected: string): (r: string)
    ensures selected != Auto ==> r == selected
    ensures selected == Auto && detected != "" ==> r == detected
    ensures selected == Auto && detected == "" ==> r == "en"
    ensures selected != "" ==> r != ""
  {
    if selected == Auto then (if detected != "" then detected else "en") else selected
  }

  /** Line 22: detection runs for non-blank text with the "auto" source. */
  predicate ShouldDetect(v: View) {
    Trim(v.sourceText) != "" && v.sourceLanguage == Auto
  }

  const TranslationFailed := "Translation failed. Please try again."

  class Translator {
    var sourceText: string
    var translatedText: string
    var sourceLanguage: string
    var detectedLanguage: string
    var targetLanguage: string
    var error: string

    function State(): View
      reads this
    {
      View(sourceLanguage, targetLanguage, sourceText, translatedText, detectedLanguage)
    }

    /** Each selector holds one of its options: the target one of
        `TargetOptions()`, i.e. a table code other than "auto". */
    ghost predicate Valid()
      reads this
    {
      sourceLanguage in Codes(Table) && targetLanguage in Codes(Table) && targetLanguage != Auto
    }

    /** The initial state of lines 11-18. */
    constructor ()
      ensures Valid()
      ensures State() == View(Auto, "vi", "", "", "") && error == ""
    {
      sourceText, translatedText := "", "";
      sourceLanguage, detectedLanguage, targetLanguage := Auto, "", "vi";
      error := "";
      assert Table[0].code in Codes(Table) && Table[2].code in Codes(Table);
    }

    /** The source selector: any table entry, "auto" included. */
    method SelectSource(code: string)
      requires Valid() && code in Codes(Table)
      modifies this
      ensures Valid() && State() == old(State()).(sourceLanguage := code) && error == old(error)
    {
      sourceLanguage := code;
    }

    /** The target selector: any entry but "auto". */
    method SelectTarget(code: string)
      requires Valid() && code in Codes(TargetOptions())
      modifies this
      ensures Valid() && State() == old(State()).(targetLanguage := code) && error == old(error)
    {
      assert code in Codes(Table) && code != Auto;
      targetLanguage := code;
    }

    /** Typing in the source box. */
    method EditSource(text: string)
      requires Valid()
      modifies this
      ensures Valid() && State() == old(State()).(sourceText := text) && error == old(error)
    {
      sourceText := text;
    }

    /** `handleSwap`: the guarded simultaneous exchange. */
    method HandleSwap()
      requires Valid()
      modifies this
      ensures Valid() && State() == Swapped(old(State())) && error == old(error)
    {
      if sourceLanguage == Auto {
        return;
      }
      sourceLanguage, targetLanguage := targetLanguage, sourceLanguage;
      if translatedText != "" {
        sourceText, translatedText := translatedText, sourceText;
      }
    }

    /** The detection effect (lines 20-51) once its debounce has fired:
        runs only under the guard of line 22, sends the source text, and on
        success records the detected code; a failure changes nothing. The
        request it sends always passes the route's validation. */
    method RunDetection(configured: bool, reply: Reply) returns (x: Option<Exchange<string>>)
      requires Valid()
      modifies this
      ensures Valid() && error == old(error)
      ensures x.Some? <==> ShouldDetect(old(State()))
      ensures x.Some? ==> x.value == DetectLanguage.Respond(Str(old(sourceText)), configured, reply)
      ensures x.Some? ==> x.value.response.Status() != 400
      ensures State() == if x.Some? && x.value.response.Ok?
                         then old(State()).(detectedLanguage := x.value.response.value)
                         else old(State())
    {
      if !(Trim(sourceText) != "" && sourceLanguage == Auto) {
        return None;
      }
      var exchange := DetectLanguage.Respond(Str(sourceText), configured, reply);
      DetectLanguage.NonBlankStringAccepted(sourceText, configured, reply);
      if exchange.response.Ok? {
        detectedLanguage := exchange.response.value;
      }
      x := Some(exchange);
    }

    /** `handleTranslate` (lines 53-86): nothing for blank text; otherwise
        sends the text, the effective source and the target, and shows the
        translation or the error message. The request it sends always
        passes the route's validation. */
    method HandleTranslate(configured: bool, reply: Reply, draw: real) returns (x: Option<Exchange<Translate.Translation>>)
      requires Valid() && 0.0 <= draw < 1.0
      modifies this
      ensures Valid()
      ensures x.None? <==> Trim(old(sourceText)) == ""
      ensures x.None? ==> State() == old(State()) && error == old(error)
      ensures x.Some? ==>
        x.value == Translate.Respond(
          Str(old(sourceText)), Str(EffectiveSource(old(sourceLanguage), old(detectedLanguage))), Str(old(targetLanguage)),
          configured, reply, draw)
      ensures x.Some? ==> x.value.response.Status() != 400
      ensures x.Some? && x.value.response.Ok? ==>
        State() == old(State()).(translatedText := x.value.response.value.translatedText) && error == ""
      ensures x.Some? && x.value.response.Err? ==> State() == old(State()) && error == TranslationFailed
    {
      if Trim(sourceText) == "" {
        return None;
      }
      error := "";
      var source := EffectiveSource(sourceLanguage, detectedLanguage);
      var exchange := Translate.Respond(Str(sourceText), Str(source), Str(targetLanguage), configured, reply, draw);
      SentTranslationAccepted(sourceText, sourceLanguage, detectedLanguage, targetLanguage, configured, reply, draw);
      if exchange.response.Ok? {
        translatedText := exchange.response.value.translatedText;
      } else {
        error := TranslationFailed;
      }
      x := Some(exchange);
    }
  }
}
