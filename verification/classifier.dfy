/**
 * The outcome classifier `normalize_result`: a battle's free-text infobox result is
 * mapped onto a closed set of outcomes by keyword tests in a fixed priority order.
 */
module Classifier {
  import opened Wrappers
  import opened Text

  /** The labels a record's `result` column can hold. */
  datatype Outcome = Unknown | Win | Loss | Draw | Other

  /** The lower-cased text mentions a victory: `victory`, `win` or `triumph`. */
  predicate WinWord(s: string)
  {
    Contains(s, "victory") || Contains(s, "win") || Contains(s, "triumph")
  }

  /** The lower-cased text mentions a defeat: `defeat`, `loss` or `retreat`. */
  predicate LossWord(s: string)
  {
    Contains(s, "defeat") || Contains(s, "loss") || Contains(s, "retreat")
  }

  /** The lower-cased text mentions a draw: `draw` or `stalemate`. */
  predicate DrawWord(s: string)
  {
    Contains(s, "draw") || Contains(s, "stalemate")
  }

  /**
   * `normalize_result`: `None` and the empty string are `Unknown`; otherwise the
   * lower-cased text is tested for win, then loss, then draw keywords, and is `Other`
   * when none occurs.
   */
  function NormalizeResult(result: Option<string>): (o: Outcome)
    ensures o == Unknown <==> result.None? || result.value == ""
  {
    if result.None? || result.value == "" then
      Unknown
    else
      var s := Lower(result.value);
      if WinWord(s) then Win
      else if LossWord(s) then Loss
      else if DrawWord(s) then Draw
      else Other
  }

  /** `Unknown` means exactly that there was no text; any text gets one of the other four. */
  lemma UnknownIffNoText(result: Option<string>)
    ensures NormalizeResult(result) == Unknown <==> result == None || result == Some("")
    ensures result != None && result != Some("") ==>
      NormalizeResult(result) in {Win, Loss, Draw, Other}
  {
  }

  /** A win keyword decides the outcome, whatever loss or draw keywords also occur. */
  lemma WinHasPriority(text: string)
    requires text != ""
    ensures NormalizeResult(Some(text)) == Win <==> WinWord(Lower(text))
  {
  }

  /** `Loss` needs a loss keyword and no win keyword. */
  lemma LossOnlyWithoutWin(text: string)
    requires text != ""
    ensures NormalizeResult(Some(text)) == Loss <==>
      !WinWord(Lower(text)) && LossWord(Lower(text))
  {
  }

  /** `Draw` needs a draw keyword and neither a win nor a loss keyword. */
  lemma DrawOnlyWithoutWinOrLoss(text: string)
    requires text != ""
    ensures NormalizeResult(Some(text)) == Draw <==>
      !WinWord(Lower(text)) && !LossWord(Lower(text)) && DrawWord(Lower(text))
  {
  }

  /** `Other` is a text that mentions no keyword at all. */
  lemma OtherWithoutKeywords(text: string)
    requires text != ""
    ensures NormalizeResult(Some(text)) == Other <==>
      !WinWord(Lower(text)) && !LossWord(Lower(text)) && !DrawWord(Lower(text))
  {
  }

  /** Classification ignores letter case: a text and its lower-cased form agree. */
  lemma CaseInsensitive(text: string)
    ensures NormalizeResult(Some(text)) == NormalizeResult(Some(Lower(text)))
  {
    LowerIdempotent(text);
  }

  /** A win keyword somewhere in the text, in any letter case, makes it a win. */
  lemma WinKeywordAt(before: string, keyword: string, after: string)
    requires Lower(keyword) in {"victory", "win", "triumph"}
    ensures NormalizeResult(Some(before + keyword + after)) == Win
  {
    var text := before + keyword + after;
    OccursInConcat(before, keyword, after);
    LowerOccurs(text, keyword, |before|);
    assert WinWord(Lower(text));
  }

  /** Letter case of a keyword does not matter: "Victory" is a win. */
  lemma CapitalisedVictoryIsWin()
    ensures NormalizeResult(Some("Victory")) == Win
  {
    assert "Victory" == "" + "Victory" + "";
    assert Lower("Victory") == "victory";
    WinKeywordAt("", "Victory", "");
  }

  /** A text with a win and a loss keyword is a win. */
  lemma VictoryBeforeDefeat()
    ensures NormalizeResult(Some("decisive victory, enemy routed in defeat")) == Win
  {
    assert "decisive victory, enemy routed in defeat" == "decisive " + "victory" + ", enemy routed in defeat";
    assert Lower("victory") == "victory";
    WinKeywordAt("decisive ", "victory", ", enemy routed in defeat");
  }

  /** "win" is tested as a substring, so a name such as "Edwin" counts as a win keyword. */
  lemma SubstringNotWord()
    ensures NormalizeResult(Some("Edwin defeated")) == Win
  {
    assert "Edwin defeated" == "Ed" + "win" + " defeated";
    assert Lower("win") == "win";
    WinKeywordAt("Ed", "win", " defeated");
  }

  /** "Russian victory" is a win: the classifier does not know which side won. */
  lemma RussianVictoryIsWin()
    ensures NormalizeResult(Some("Russian victory")) == Win
  {
    assert "Russian victory" == "Russian " + "victory" + "";
    assert Lower("victory") == "victory";
    WinKeywordAt("Russian ", "victory", "");
  }

  /** Every win keyword contains an `i`. */
  lemma NoWinWord(s: string)
    requires 'i' !in s
    ensures !WinWord(s)
  {
    AbsentChar(s, "victory", 1);
    AbsentChar(s, "win", 1);
    AbsentChar(s, "triumph", 2);
  }

  /** Every loss keyword contains an `l`, or both an `a` and an `e`. */
  lemma NoLossWord(s: string)
    requires 'l' !in s && ('a' !in s || 'e' !in s)
    ensures !LossWord(s)
  {
    AbsentChar(s, "loss", 0);
    if 'a' !in s {
      AbsentChar(s, "defeat", 4);
      AbsentChar(s, "retreat", 5);
    } else {
      AbsentChar(s, "defeat", 1);
      AbsentChar(s, "retreat", 1);
    }
  }

  /** Every draw keyword contains an `a`. */
  lemma NoDrawWord(s: string)
    requires 'a' !in s
    ensures !DrawWord(s)
  {
    AbsentChar(s, "draw", 2);
    AbsentChar(s, "stalemate", 2);
  }

  /** "Draw", in any letter case, has no win or loss keyword and is a draw. */
  lemma DrawExample(text: string)
    requires Lower(text) == "draw"
    ensures NormalizeResult(Some(text)) == Draw
  {
    var s := Lower(text);
    assert 'i' !in s && 'l' !in s && 'e' !in s;
    NoWinWord(s);
    NoLossWord(s);
    assert OccursAt(s, "draw", 0);
  }

  /** "Truce", in any letter case, mentions no keyword and is `Other`. */
  lemma TruceIsOther(text: string)
    requires Lower(text) == "truce"
    ensures NormalizeResult(Some(text)) == Other
  {
    var s := Lower(text);
    assert 'i' !in s && 'l' !in s && 'a' !in s;
    NoWinWord(s);
    NoLossWord(s);
    NoDrawWord(s);
  }
}
