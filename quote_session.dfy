/**
 * A widget's life as a sequence of user events, applied after the first
 * render. An edit reaches the citation field's change handler only while
 * that field is rendered, so an edit made under a selection that hides the
 * field changes nothing. The lemmas here are what the widget promises over
 * any such sequence.
 */
module QuoteSession {
  import opened Wrappers
  import opened QuoteState

  datatype Event =
    | Mount
    | ToggleCitation
    | EditCitation(text: string, at: Focus)
    | ChangeAlign(next: Option<Align>)

  /**
   * One event. An edit takes effect only while the citation field is
   * rendered under the edit's selection; otherwise it has no handler.
   */
  function Step(s: State, e: Event): (t: State)
    ensures e.EditCitation? ==> t == if Visible(s, e.at) then s.(citation := e.text) else s
    ensures t.withCitation != s.withCitation ==> e.ToggleCitation? || e.Mount?
    ensures t.citation != s.citation ==> e.ToggleCitation? || (e.EditCitation? && Visible(s, e.at))
    ensures t.align != s.align ==> e.ChangeAlign?
    ensures t.mounted != s.mounted ==> e.Mount?
  {
    match e
    case Mount => AfterMount(s)
    case ToggleCitation => AfterToggle(s)
    case EditCitation(text, at) => if Visible(s, at) then AfterEdit(s, text) else s
    case ChangeAlign(next) => AfterAlign(s, next)
  }

  function Run(s: State, es: seq<Event>): State
    decreases |es|
  {
    if es == [] then s else Run(Step(s, es[0]), es[1..])
  }

  /** A widget created for a block with these attributes: mount effect first, then the events. */
  function Session(citation: string, align: Option<Align>, es: seq<Event>): State
  {
    Run(Initial(citation, align), [Mount] + es)
  }

  lemma {:induction false} RunConcat(s: State, es: seq<Event>, rest: seq<Event>)
    ensures Run(s, es + rest) == Run(Run(s, es), rest)
    decreases |es|
  {
    if es == [] {
      assert es + rest == rest;
    } else {
      assert (es + rest)[1..] == es[1..] + rest;
      RunConcat(Step(s, es[0]), es[1..], rest);
    }
  }

  lemma {:induction false} RunAppend(s: State, es: seq<Event>, e: Event)
    ensures Run(s, es + [e]) == Step(Run(s, es), e)
    decreases |es|
  {
    if es != [] {
      assert (es + [e])[1..] == es[1..] + [e];
      RunAppend(Step(s, es[0]), es[1..], e);
    }
  }

  // ---- The mount effect runs once ----

  function WithoutMount(es: seq<Event>): (r: seq<Event>)
    ensures forall e :: e in r <==> e in es && e != Mount
  {
    if es == [] then []
    else if es[0] == Mount then WithoutMount(es[1..])
    else [es[0]] + WithoutMount(es[1..])
  }

  /** After the first mount effect, further ones change nothing. */
  lemma {:induction false} MountRunsOnce(s: State, es: seq<Event>)
    requires s.mounted
    ensures Run(s, es) == Run(s, WithoutMount(es))
    decreases |es|
  {
    if es != [] {
      var t := Step(s, es[0]);
      assert t.mounted;
      MountRunsOnce(t, es[1..]);
      if es[0] == Mount {
        assert t == s;
      } else {
        assert WithoutMount(es)[0] == es[0];
        assert WithoutMount(es)[1..] == WithoutMount(es[1..]);
      }
    }
  }

  /** The mount effect turns the flag on exactly when the block's citation has text. */
  lemma MountSetsFlag(citation: string, align: Option<Align>)
    ensures Session(citation, align, []).withCitation == !IsEmpty(citation)
    ensures Session(citation, align, []).citation == citation
    ensures Session(citation, align, []).align == align
  {
    assert Session(citation, align, []) == Run(AfterMount(Initial(citation, align)), []);
  }

  // ---- The flag flips on each click and on nothing else ----

  function ToggleCount(es: seq<Event>): nat
  {
    if es == [] then 0
    else (if es[0] == ToggleCitation then 1 else 0) + ToggleCount(es[1..])
  }

  /** After mounting, the flag is the starting flag flipped once per click. */
  lemma {:induction false} FlagParity(s: State, es: seq<Event>)
    requires s.mounted
    ensures Run(s, es).withCitation == (s.withCitation != (ToggleCount(es) % 2 == 1))
    decreases |es|
  {
    if es != [] {
      var t := Step(s, es[0]);
      FlagParity(t, es[1..]);
    }
  }

  /** In a session the flag is "the block had a citation" flipped once per click. */
  lemma SessionFlag(citation: string, align: Option<Align>, es: seq<Event>)
    ensures Session(citation, align, es).withCitation == (!IsEmpty(citation) != (ToggleCount(es) % 2 == 1))
  {
    var s := AfterMount(Initial(citation, align));
    assert ([Mount] + es)[1..] == es;
    FlagParity(s, es);
  }

  // ---- Alignment follows the alignment toolbar and nothing else ----

  /** The last alignment chosen in the events, or the starting one if none was. */
  function LastAlign(es: seq<Event>, start: Option<Align>): Option<Align>
    decreases |es|
  {
    if es == [] then start
    else if es[|es| - 1].ChangeAlign? then es[|es| - 1].next
    else LastAlign(es[..|es| - 1], start)
  }

  lemma {:induction false} AlignFollowsLastChange(s: State, es: seq<Event>)
    ensures Run(s, es).align == LastAlign(es, s.align)
    decreases |es|
  {
    if es != [] {
      var init := es[..|es| - 1];
      var e := es[|es| - 1];
      assert es == init + [e];
      RunAppend(s, init, e);
      AlignFollowsLastChange(s, init);
    }
  }

  // ---- Where the citation text comes from ----

  /** The text is the block's own, empty (a click cleared it), or the text of some edit. */
  lemma {:induction false} CitationOrigin(s: State, es: seq<Event>)
    ensures var c := Run(s, es).citation;
      c == s.citation || c == "" ||
      exists i :: 0 <= i < |es| && es[i].EditCitation? && es[i].text == c
    decreases |es|
  {
    if es != [] {
      var t := Step(s, es[0]);
      CitationOrigin(t, es[1..]);
      var c := Run(s, es).citation;
      assert c == Run(t, es[1..]).citation;
      if c != s.citation && c != "" {
        if c == t.citation {
          assert es[0].EditCitation? && es[0].text == c;
        } else {
          var j :| 0 <= j < |es[1..]| && es[1..][j].EditCitation? && es[1..][j].text == c;
          assert es[j + 1] == es[1..][j];
        }
      }
    }
  }

  // ---- Text implies the flag ----

  /** Every mounted state the widget reaches: text in the citation means the flag is on. */
  predicate Consistent(s: State)
  {
    s.mounted && (!IsEmpty(s.citation) ==> s.withCitation)
  }

  lemma StepKeepsConsistent(s: State, e: Event)
    requires Consistent(s)
    ensures Consistent(Step(s, e))
  {
  }

  lemma {:induction false} RunKeepsConsistent(s: State, es: seq<Event>)
    requires Consistent(s)
    ensures Consistent(Run(s, es))
    decreases |es|
  {
    if es != [] {
      StepKeepsConsistent(s, es[0]);
      RunKeepsConsistent(Step(s, es[0]), es[1..]);
    }
  }

  lemma SessionConsistent(citation: string, align: Option<Align>, es: seq<Event>)
    ensures Consistent(Session(citation, align, es))
  {
    var s := AfterMount(Initial(citation, align));
    assert ([Mount] + es)[1..] == es;
    RunKeepsConsistent(s, es);
  }

  /** Selecting the block (or a block inside it) never hides a citation shown while it was not selected. */
  lemma SelectingNeverHides(citation: string, align: Option<Align>, es: seq<Event>, f: Focus)
    ensures var s := Session(citation, align, es);
      Visible(s, Focus(false, false)) ==> Visible(s, f)
  {
    SessionConsistent(citation, align, es);
  }

  /** An empty, switched-off citation stays hidden under every selection until the next click. */
  lemma {:induction false} StaysHidden(s: State, es: seq<Event>, f: Focus)
    requires !s.withCitation && IsEmpty(s.citation)
    requires ToggleCount(es) == 0
    ensures !Visible(Run(s, es), f)
    decreases |es|
  {
    if es != [] {
      var t := Step(s, es[0]);
      assert !t.withCitation && IsEmpty(t.citation);
      StaysHidden(t, es[1..], f);
    }
  }

  /** A click that switches the citation off empties it and hides it under every selection until it is switched on again. */
  lemma ToggleOffHides(citation: string, align: Option<Align>, es: seq<Event>, rest: seq<Event>, f: Focus)
    requires Session(citation, align, es).withCitation
    requires ToggleCount(rest) == 0
    ensures var s := Session(citation, align, es + [ToggleCitation]);
      !s.withCitation && s.citation == ""
    ensures !Visible(Session(citation, align, es + [ToggleCitation] + rest), f)
  {
    assert [Mount] + (es + [ToggleCitation]) == ([Mount] + es) + [ToggleCitation];
    RunAppend(Initial(citation, align), [Mount] + es, ToggleCitation);
    var off := Session(citation, align, es + [ToggleCitation]);
    assert [Mount] + (es + [ToggleCitation] + rest) == ([Mount] + (es + [ToggleCitation])) + rest;
    RunConcat(Initial(citation, align), [Mount] + (es + [ToggleCitation]), rest);
    StaysHidden(off, rest, f);
  }
}
