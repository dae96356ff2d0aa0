/**
 * `reformatertext.py`: every tab-separated line `first<TAB>second` of a text becomes a
 * line `{ image: '<second>', answer: '<first, lower-cased>' },`; other lines are dropped.
 */
module Reformat {
  import opened Wrappers
  import opened Text

  /** The output line for an image and its answer. */
  function Entry(image: string, answer: string): string
  {
    "{ image: '" + image + "', answer: '" + answer + "' },"
  }

  /** The per-line transform: strip, split on tabs, and format exactly two fields. */
  function ReformatLine(line: string): (r: Option<string>)
    ensures r.Some? ==> exists first, second :: TwoFields(line, first, second) && r.value == Entry(second, Lower(first))
  {
    var parts := Split(Strip(line), '\t');
    if |parts| == 2 then
      assert Join(parts, '\t') == parts[0] + ['\t'] + parts[1] by {
        assert parts[1..] == [parts[1]];
      }
      assert TwoFields(line, parts[0], parts[1]);
      Some(Entry(parts[1], Lower(parts[0])))
    else
      None
  }

  /** The stripped line is the two tab-free fields `first` and `second` joined by one tab. */
  ghost predicate TwoFields(line: string, first: string, second: string)
  {
    '\t' !in first && '\t' !in second && Strip(line) == first + ['\t'] + second
  }

  /** A line of two fields yields its second field as the image and its first, lower-cased, as the answer. */
  lemma TwoFieldsFormatted(line: string, first: string, second: string)
    requires TwoFields(line, first, second)
    ensures ReformatLine(line) == Some(Entry(second, Lower(first)))
  {
    SplitJoin([first, second], '\t');
    assert Join([first, second], '\t') == first + ['\t'] + second;
  }

  /** A line yields output exactly when, once stripped, it is two fields joined by one tab. */
  lemma OutputIffTwoFields(line: string)
    ensures ReformatLine(line).Some? <==> exists first, second :: TwoFields(line, first, second)
  {
    var parts := Split(Strip(line), '\t');
    if |parts| == 2 {
      assert Join(parts, '\t') == parts[0] + ['\t'] + parts[1] by {
        assert parts[1..] == [parts[1]];
      }
      assert TwoFields(line, parts[0], parts[1]);
    }
    if exists first, second :: TwoFields(line, first, second) {
      var first, second :| TwoFields(line, first, second);
      TwoFieldsFormatted(line, first, second);
    }
  }

  /**
   * Surrounding whitespace, a line break included, never reaches a field: both fields
   * are non-empty, the first does not start and the second does not end with whitespace.
   */
  lemma FieldsAreTrimmed(line: string, first: string, second: string)
    requires TwoFields(line, first, second)
    ensures first != [] && second != []
    ensures !IsSpace(first[0]) && !IsSpace(second[|second| - 1])
  {
    var s := Strip(line);
    assert s[|first|] == '\t';
    assert first != [] ==> s[0] == first[0];
    assert second != [] ==> s[|s| - 1] == second[|second| - 1];
  }

  /** The output of the loop over `lines`: each line's output, if any, in line order. */
  function Emitted(lines: seq<string>): (out: seq<string>)
    ensures |out| <= |lines|
  {
    if lines == [] then
      []
    else
      var before := Emitted(lines[..|lines| - 1]);
      match ReformatLine(lines[|lines| - 1])
      case Some(entry) => before + [entry]
      case None => before
  }

  /** Output keeps input order: the output of two stretches of lines is the one after the other. */
  lemma {:induction false} EmittedAppend(a: seq<string>, b: seq<string>)
    ensures Emitted(a + b) == Emitted(a) + Emitted(b)
  {
    if b != [] {
      var init := b[..|b| - 1];
      assert (a + b)[..|a + b| - 1] == a + init;
      assert (a + b)[|a + b| - 1] == b[|b| - 1];
      EmittedAppend(a, init);
    } else {
      assert a + b == a;
    }
  }

  /** The loop `for line in file`: each line's output, if any, is emitted in turn. */
  method ReformatLines(lines: seq<string>) returns (out: seq<string>)
    ensures out == Emitted(lines)
  {
    out := [];
    for i := 0 to |lines|
      invariant out == Emitted(lines[..i])
    {
      var parts := Split(Strip(lines[i]), '\t');
      if |parts| == 2 {
        var image, answer := parts[0], parts[1];
        out := out + [Entry(answer, Lower(image))];
      }
      assert lines[..i + 1][..i] == lines[..i];
    }
    assert lines[..|lines|] == lines;
  }
}
