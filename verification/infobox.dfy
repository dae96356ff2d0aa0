/**
 * `parse_infobox_result`: the wikitext of a battle's page, already parsed into its
 * templates, is searched for the first infobox that has a `result` parameter.
 */
module Infobox {
  import opened Wrappers
  import opened Text

  /** One template of a page: its name and its named parameters with their raw values. */
  datatype Template = Template(name: string, params: map<string, string>)

  /** The parameter whose value is the battle's result. */
  const ResultParam: string := "result"

  /** The lower-cased, stripped template name contains `infobox`. */
  predicate IsInfobox(t: Template)
  {
    Contains(Strip(Lower(t.name)), "infobox")
  }

  /** An infobox that has a `result` parameter: the loop returns at such a template. */
  predicate HasResult(t: Template)
  {
    IsInfobox(t) && ResultParam in t.params
  }

  /** The stripped value of a template's `result` parameter. */
  function ResultValue(t: Template): string
    requires ResultParam in t.params
  {
    Strip(t.params[ResultParam])
  }

  /** `i` is the first template of `ts` that is an infobox with a `result` parameter. */
  ghost predicate FirstWithResult(ts: seq<Template>, i: int)
  {
    0 <= i < |ts| && HasResult(ts[i]) && forall j :: 0 <= j < i ==> !HasResult(ts[j])
  }

  /**
   * The value `parse_infobox_result` returns for the templates `ts`: the stripped
   * `result` of the first infobox that has one, `None` when no infobox has one.
   */
  function FirstInfoboxResult(ts: seq<Template>): Option<string>
  {
    if ts == [] then None
    else if HasResult(ts[0]) then Some(ResultValue(ts[0]))
    else FirstInfoboxResult(ts[1..])
  }

  /** The search returns the stripped `result` of the first infobox that has one. */
  lemma {:induction false} FirstInfoboxResultIsFirst(ts: seq<Template>, i: int)
    requires FirstWithResult(ts, i)
    ensures FirstInfoboxResult(ts) == Some(ResultValue(ts[i]))
  {
    if i > 0 {
      assert ts[1..][i - 1] == ts[i];
      assert FirstWithResult(ts[1..], i - 1) by {
        assert forall j :: 0 <= j < i - 1 ==> ts[1..][j] == ts[j + 1];
      }
      FirstInfoboxResultIsFirst(ts[1..], i - 1);
    }
  }

  /** The search returns `None` exactly when no infobox has a `result` parameter. */
  lemma {:induction false} FirstInfoboxResultNone(ts: seq<Template>)
    ensures FirstInfoboxResult(ts).None? <==> forall i :: 0 <= i < |ts| ==> !HasResult(ts[i])
  {
    if ts != [] {
      FirstInfoboxResultNone(ts[1..]);
      assert forall i :: 0 < i < |ts| ==> ts[1..][i - 1] == ts[i];
    }
  }

  /** The loop of `parse_infobox_result`, returning from inside at the first match. */
  method ParseInfoboxResult(ts: seq<Template>) returns (r: Option<string>)
    ensures r == FirstInfoboxResult(ts)
  {
    for k := 0 to |ts|
      invariant FirstInfoboxResult(ts[k..]) == FirstInfoboxResult(ts)
    {
      var t := ts[k];
      var name := Strip(Lower(t.name));
      if Contains(name, "infobox") {
        if ResultParam in t.params {
          return Some(Strip(t.params[ResultParam]));
        }
      }
      assert ts[k..][1..] == ts[k + 1..];
    }
    return None;
  }

  /** An infobox without `result` does not stop the search: a later infobox is consulted. */
  lemma SkipsInfoboxWithoutResult(t: Template, rest: seq<Template>)
    requires IsInfobox(t) && ResultParam !in t.params
    ensures FirstInfoboxResult([t] + rest) == FirstInfoboxResult(rest)
  {
    assert ([t] + rest)[1..] == rest;
  }

  /** A page without templates has no result. */
  lemma NoTemplatesNoResult()
    ensures FirstInfoboxResult([]) == None
  {
  }

  /** Only the first infobox with a result counts: a later one's value is ignored. */
  lemma FirstInfoboxWins(t: Template, rest: seq<Template>)
    requires HasResult(t)
    ensures FirstInfoboxResult([t] + rest) == Some(ResultValue(t))
  {
  }

  /** An infobox's name is at least as long as `infobox`: stripping only shortens it. */
  lemma InfoboxNameLength(t: Template)
    requires IsInfobox(t)
    ensures |t.name| >= |"infobox"|
  {
    var s := Strip(Lower(t.name));
    var i: nat :| OccursAt(s, "infobox", i);
    StripSurrounded(Lower(t.name));
  }

  /**
   * A template whose name starts with "Infobox" is an infobox, whatever follows, a
   * trailing line break included.
   */
  lemma NamedInfobox(t: Template, rest: string)
    requires t.name == "Infobox" + rest
    ensures IsInfobox(t)
  {
    var s := Lower(t.name);
    assert s[..7] == "infobox";
    assert !IsSpace(s[0]);
    assert TrimStart(s) == s;
    TrimEndDropsSpace(s);
    var n := |TrimEnd(s)|;
    assert n >= 7 by {
      assert !IsSpace(s[6]);
    }
    assert Strip(s) == s[..n];
    assert OccursAt(Strip(s), "infobox", 0);
  }
}
