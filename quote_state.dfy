/**
 * The state of one quote block's editing widget and the pure rules that
 * derive what it shows: the alignment class on the wrapper, whether the
 * citation field is rendered, and the toolbar button's pressed state.
 * Each operation of the widget is given here as a function from the old
 * state to the new one; the class in QuoteEditor and the event traces in
 * QuoteSession are both specified by these functions.
 */
module QuoteState {
  import opened Wrappers

  /** The alignments the alignment toolbar offers. */
  datatype Align = Left | Center | Right

  function AlignName(a: Align): string
  {
    match a
    case Left => "left"
    case Center => "center"
    case Right => "right"
  }

  const AlignClassPrefix: string := "has-text-align-"

  /** The class the wrapper gets from `align`: `has-text-align-<align>`, only when `align` is set. */
  function AlignClass(align: Option<Align>): (c: Option<string>)
    ensures c.Some? <==> align.Some?
    ensures c.Some? ==> |c.value| > |AlignClassPrefix| && c.value[..|AlignClassPrefix|] == AlignClassPrefix
  {
    match align
    case None => None
    case Some(a) => Some(AlignClassPrefix + AlignName(a))
  }

  /** Reads an alignment back from a wrapper class name; the inverse of AlignClass. */
  function AlignOfClass(c: string): (a: Option<Align>)
    ensures a.Some? ==> AlignClass(a) == Some(c)
  {
    if c == AlignClassPrefix + "left" then Some(Left)
    else if c == AlignClassPrefix + "center" then Some(Center)
    else if c == AlignClassPrefix + "right" then Some(Right)
    else None
  }

  /** The class is there exactly when `align` is set, and it names that alignment. */
  lemma AlignClassRoundTrip(align: Option<Align>)
    ensures AlignClass(align).Some? <==> align.Some?
    ensures align.Some? ==> AlignOfClass(AlignClass(align).value) == align
  {
  }

  /** Distinct alignments give distinct classes. */
  lemma AlignClassInjective(a: Option<Align>, b: Option<Align>)
    requires AlignClass(a) == AlignClass(b)
    ensures a == b
  {
    AlignClassRoundTrip(a);
    AlignClassRoundTrip(b);
  }

  /** The editor's selection, as seen by this block. */
  datatype Focus = Focus(isSelected: bool, isAncestorOfSelected: bool)
  {
    /** The block itself or one of its inner blocks is selected. */
    predicate Focused()
    {
      isSelected || isAncestorOfSelected
    }
  }

  /**
   * One editing widget: the local flag `withCitation`, the persisted
   * attributes `citation` and `align`, and whether the mount effect has run.
   */
  datatype State = State(withCitation: bool, citation: string, align: Option<Align>, mounted: bool)

  /** Rich-text emptiness, abstracted to the empty string. */
  predicate IsEmpty(text: string)
  {
    |text| == 0
  }

  /** The first render: the flag is created false, the effect has not run. */
  function Initial(citation: string, align: Option<Align>): (s: State)
    ensures !s.withCitation && !s.mounted
    ensures s.citation == citation && s.align == align
  {
    State(false, citation, align, false)
  }

  /** The mount effect: turn the flag on when there is citation text; runs once. */
  function AfterMount(s: State): (t: State)
    ensures t.mounted && t.citation == s.citation && t.align == s.align
    ensures t.withCitation == (s.withCitation || (!s.mounted && !IsEmpty(s.citation)))
  {
    if s.mounted then s
    else if !IsEmpty(s.citation) then s.(withCitation := true, mounted := true)
    else s.(mounted := true)
  }

  /** The toolbar button's click: clear the text when switching off, then flip the flag. */
  function AfterToggle(s: State): (t: State)
    ensures t.withCitation == !s.withCitation
    ensures t.citation == if s.withCitation then "" else s.citation
    ensures t.align == s.align && t.mounted == s.mounted
  {
    var cleared := if s.withCitation then s.(citation := "") else s;
    cleared.(withCitation := !s.withCitation)
  }

  /** The citation field's change handler: store the new text. */
  function AfterEdit(s: State, text: string): (t: State)
    ensures t.citation == text
    ensures t.(citation := s.citation) == s
  {
    s.(citation := text)
  }

  /** The alignment toolbar's change handler: store the new alignment. */
  function AfterAlign(s: State, next: Option<Align>): (t: State)
    ensures t.align == next
    ensures t.(align := s.align) == s
  {
    s.(align := next)
  }

  /** Whether the citation field is rendered. */
  function Visible(s: State, f: Focus): (v: bool)
    ensures f.Focused() ==> v == s.withCitation
    ensures !f.Focused() ==> v == !IsEmpty(s.citation)
  {
    var visible := !IsEmpty(s.citation);
    if f.Focused() then s.withCitation else visible
  }

  /** While the block or a descendant is selected, visibility is the flag, whatever the text. */
  lemma VisibleWhenFocused(s: State, f: Focus, text: string)
    requires f.Focused()
    ensures Visible(s, f) == s.withCitation
    ensures Visible(s.(citation := text), f) == Visible(s, f)
  {
  }

  /** Otherwise visibility is "the text is non-empty", whatever the flag. */
  lemma VisibleWhenUnfocused(s: State, f: Focus, flag: bool)
    requires !f.Focused()
    ensures Visible(s, f) == !IsEmpty(s.citation)
    ensures Visible(s.(withCitation := flag), f) == Visible(s, f)
  {
  }

  /** Two clicks restore the flag and everything else except the text, which ends up empty. */
  lemma ToggleTwice(s: State)
    ensures AfterToggle(AfterToggle(s)) == s.(citation := "")
  {
  }

  /** The citation field as rendered: its text and its alignment. */
  datatype CitationField = CitationField(value: string, textAlign: Option<Align>)

  /** What the widget renders, without the framework's plumbing. */
  datatype View = View(wrapperClass: Option<string>, toggleActive: bool, citationField: Option<CitationField>)

  function Render(s: State, f: Focus): (v: View)
    ensures v.toggleActive == s.withCitation
    ensures v.wrapperClass.Some? <==> s.align.Some?
    ensures v.wrapperClass.Some? ==> AlignOfClass(v.wrapperClass.value) == s.align
    ensures f.Focused() ==> (v.citationField.Some? <==> v.toggleActive)
    ensures !f.Focused() ==> (v.citationField.Some? <==> !IsEmpty(s.citation))
    ensures v.citationField.Some? ==> v.citationField.value == CitationField(s.citation, s.align)
  {
    AlignClassRoundTrip(s.align);
    View(AlignClass(s.align), s.withCitation,
         if Visible(s, f) then Some(CitationField(s.citation, s.align)) else None)
  }
}
