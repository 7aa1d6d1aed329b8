/**
 * The quote block's editing widget as an object: the local flag and the two
 * persisted attributes are fields, and each event handler is a method that
 * updates them in place. Every method is specified by the matching state
 * function of QuoteState.
 */
module QuoteEditor {
  import opened Wrappers
  import opened QuoteState

  class QuoteEdit {
    /** Local state: the user asked for the citation field. */
    var withCitation: bool
    /** Persisted attribute, written only through the handlers below. */
    var citation: string
    /** Persisted attribute, written only through SetAlign. */
    var align: Option<Align>
    /** The mount effect has run (the framework runs it once per widget). */
    var mounted: bool

    function Model(): State
      reads this
    {
      State(withCitation, citation, align, mounted)
    }

    /** The first render: the flag starts false and the attributes are the block's. */
    constructor (citation: string, align: Option<Align>)
      ensures Model() == Initial(citation, align)
      ensures !withCitation && !mounted
    {
      this.withCitation := false;
      this.citation := citation;
      this.align := align;
      this.mounted := false;
    }

    /** The mount effect: switch the flag on when the citation has text. */
    method Init()
      modifies this
      ensures Model() == AfterMount(old(Model()))
      ensures mounted && citation == old(citation) && align == old(align)
      ensures old(mounted) ==> withCitation == old(withCitation)
      ensures !old(mounted) ==> withCitation == (old(withCitation) || !IsEmpty(citation))
    {
      if !mounted {
        if !IsEmpty(citation) {
          withCitation := true;
        }
        mounted := true;
      }
    }

    /** The toolbar button's click handler. */
    method Toggle()
      modifies this
      ensures Model() == AfterToggle(old(Model()))
      ensures withCitation == !old(withCitation)
      ensures old(withCitation) ==> citation == ""
      ensures !old(withCitation) ==> citation == old(citation)
      ensures align == old(align) && mounted == old(mounted)
    {
      if withCitation == true {
        // Switching off: the text is cleared so that reopening starts blank.
        citation := "";
      }
      withCitation := !withCitation;
    }

    /** The citation field's change handler. */
    method EditCitation(next: string)
      modifies this
      ensures Model() == AfterEdit(old(Model()), next)
      ensures citation == next
      ensures withCitation == old(withCitation) && align == old(align) && mounted == old(mounted)
    {
      citation := next;
    }

    /** The alignment toolbar's change handler. */
    method SetAlign(next: Option<Align>)
      modifies this
      ensures Model() == AfterAlign(old(Model()), next)
      ensures align == next
      ensures withCitation == old(withCitation) && citation == old(citation) && mounted == old(mounted)
    {
      align := next;
    }

    /** Whether the citation field is rendered for the given selection. */
    function Visible(isSelected: bool, isAncestorOfSelected: bool): (v: bool)
      reads this
      ensures isSelected || isAncestorOfSelected ==> v == withCitation
      ensures !isSelected && !isAncestorOfSelected ==> v == !IsEmpty(citation)
    {
      QuoteState.Visible(Model(), Focus(isSelected, isAncestorOfSelected))
    }

    /** The pressed state of the citation button. */
    function ToggleActive(): (active: bool)
      reads this
      ensures active == withCitation
      ensures forall f: Focus :: active == Render(Model(), f).toggleActive
    {
      withCitation
    }
  }

  /**
   * A block created empty: hidden when not selected; selected and toggled on,
   * the field shows; after typing, it stays shown when the block is left.
   */
  method AddCitationScenario()
  {
    var q := new QuoteEdit("", None);
    q.Init();
    assert !q.Visible(false, false);
    q.Toggle();
    assert q.withCitation && q.Visible(true, false);
    q.EditCitation("— Ada Lovelace");
    assert q.citation == "— Ada Lovelace" && q.Visible(true, false);
    assert q.Visible(false, false);
  }

  /**
   * A block with a citation: the flag starts on; toggling it off clears the
   * text and keeps the field hidden after the block is left.
   */
  method RemoveCitationScenario()
  {
    var q := new QuoteEdit("Quoted.", Some(Center));
    q.Init();
    assert q.withCitation && q.Visible(true, false);
    q.Toggle();
    assert q.citation == "" && !q.withCitation;
    assert !q.Visible(true, false) && !q.Visible(false, false);
    assert q.align == Some(Center);
  }

  /** On, off, on without edits: the flag is back on and the text is empty. */
  method ToggleThriceScenario()
  {
    var q := new QuoteEdit("", None);
    q.Init();
    q.Toggle();
    q.Toggle();
    q.Toggle();
    assert q.withCitation && q.citation == "";
  }
}
