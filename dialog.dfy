/**
  The Dialog component: a page-wide scroll lock kept in the single field
  `document.body.style.overflow`, and the choice of what the dialog shows.

  The lock is an effect that depends on `isOpen`: it runs when the dialog is
  mounted and again whenever `isOpen` changes, each time after the cleanup of
  the previous run. The effect writes "hidden" or "unset"; the cleanup always
  writes "unset". No dialog counts how many others hold the lock, so the last
  write wins.
*/
module Dialog {
  import opened Js

  /** `document.body`, shared by every dialog on the page. */
  class DocumentBody {
    var overflow: string

    constructor (overflow: string)
      ensures this.overflow == overflow
    {
      this.overflow := overflow;
    }
  }

  /** The value the effect writes for a given `isOpen`. */
  function OverflowFor(isOpen: bool): (v: string)
    ensures isOpen ==> v == "hidden"
    ensures !isOpen ==> v == "unset"
  {
    if isOpen then "hidden" else "unset"
  }

  /** One Dialog instance as far as its effect is concerned: the `isOpen` it last
      rendered with, whether it is mounted, and the body it writes to. */
  class ScrollLock {
    const body: DocumentBody
    var isOpen: bool
    var mounted: bool

    /** Mounting renders once and then runs the effect for the initial `isOpen`. */
    constructor (body: DocumentBody, isOpen: bool)
      modifies body
      ensures this.body == body && this.isOpen == isOpen && mounted
      ensures body.overflow == OverflowFor(isOpen)
    {
      this.body := body;
      this.isOpen := isOpen;
      this.mounted := true;
      new;
      RunEffect();
    }

    /** The effect body: lock when open, unlock when closed. */
    method RunEffect()
      modifies body
      ensures body.overflow == OverflowFor(isOpen)
    {
      if isOpen {
        body.overflow := "hidden";
      } else {
        body.overflow := "unset";
      }
    }

    /** The cleanup the effect returns: always unlock. */
    method Cleanup()
      modifies body
      ensures body.overflow == "unset"
    {
      body.overflow := "unset";
    }

    /** A re-render with a new `isOpen`. The effect depends only on `isOpen`, so it
        (and the previous run's cleanup) runs only when the value changed. */
    method Rerender(newIsOpen: bool)
      requires mounted
      modifies this, body
      ensures mounted && isOpen == newIsOpen
      ensures body.overflow == if newIsOpen == old(isOpen) then old(body.overflow) else OverflowFor(newIsOpen)
    {
      if newIsOpen != isOpen {
        Cleanup();
        isOpen := newIsOpen;
        RunEffect();
      }
    }

    /** Unmounting runs the last cleanup, whatever `isOpen` was. */
    method Unmount()
      requires mounted
      modifies this, body
      ensures !mounted && isOpen == old(isOpen)
      ensures body.overflow == "unset"
    {
      Cleanup();
      mounted := false;
    }
  }

  /** Two dialogs are opened on one page and the first is closed: the page scrolls
      again although the second dialog is still open. */
  method CloseOneOfTwo() returns (first: ScrollLock, second: ScrollLock)
    ensures first.body == second.body
    ensures !first.isOpen && second.isOpen && second.mounted
    ensures second.body.overflow == "unset"
  {
    var body := new DocumentBody("");
    first := new ScrollLock(body, true);
    second := new ScrollLock(body, true);
    assert body.overflow == "hidden";
    first.Rerender(false);
  }

  /** A dialog mounted closed also writes "unset", so it releases the lock of a dialog that is open. */
  method MountClosedBesideOpen() returns (open: ScrollLock, closed: ScrollLock)
    ensures open.body == closed.body
    ensures open.isOpen && open.mounted && !closed.isOpen
    ensures open.body.overflow == "unset"
  {
    var body := new DocumentBody("");
    open := new ScrollLock(body, true);
    closed := new ScrollLock(body, false);
  }

  // ---------------------------------------------------------------------
  // What the dialog renders
  // ---------------------------------------------------------------------

  /** The header row: a custom node, a title with a close button, or none. */
  datatype Header = NoHeader | CustomHeader(content: Node) | TitleHeader(title: string)

  /** What follows the body: nothing, the footer row around its content, or the bare text
      React prints for a falsy number left over by `&&`. */
  datatype Footer = NoFooter | FooterRow(content: Node) | StrayText(text: string)

  /** An open dialog: header row, body content and what follows the body. */
  datatype View = View(header: Header, body: Node, footer: Footer)

  /** Only the header built from `title` carries the close button. */
  predicate HasCloseButton(h: Header) {
    h.TitleHeader?
  }

  /** `header` wins over `title`; an absent `title` is written "". */
  function RenderHeader(title: string, header: Node): (h: Header)
    ensures h.CustomHeader? <==> Truthy(header)
    ensures h.CustomHeader? ==> h.content == header
    ensures h.TitleHeader? <==> !Truthy(header) && title != ""
    ensures h.TitleHeader? ==> h.title == title
  {
    if Truthy(header) then CustomHeader(header)
    else if title != "" then TitleHeader(title)
    else NoHeader
  }

  /** `showFooter && actualFooter && <footer row>` with `actualFooter = footer || footerContent`.
      A falsy `actualFooter` is the value of the expression: React prints nothing for
      `undefined`, `null`, `false` or "", but prints the number 0 as the text "0". */
  function RenderFooter(showFooter: bool, footer: Node, footerContent: Node): (r: Footer)
    ensures r.FooterRow? <==> showFooter && (Truthy(footer) || Truthy(footerContent))
    ensures r.FooterRow? ==> r.content == if Truthy(footer) then footer else footerContent
    ensures r.StrayText? <==> showFooter && !Truthy(footer) && footerContent == Number(0)
    ensures r.StrayText? ==> r.text == "0"
  {
    var actualFooter := Or(footer, footerContent);
    if !showFooter then NoFooter
    else if Truthy(actualFooter) then FooterRow(actualFooter)
    else match actualFooter
      case Number(n) => StrayText(IntToString(n))
      case _ => NoFooter
  }

  /** A closed dialog renders nothing at all. */
  function Render(isOpen: bool, title: string, header: Node, children: Node,
                  showFooter: bool, footer: Node, footerContent: Node): (r: Option<View>)
    ensures r.None? <==> !isOpen
    ensures r.Some? ==> r.value.body == children
    ensures r.Some? ==> r.value.header == RenderHeader(title, header)
    ensures r.Some? ==> r.value.footer == RenderFooter(showFooter, footer, footerContent)
  {
    if !isOpen then None
    else Some(View(RenderHeader(title, header), children, RenderFooter(showFooter, footer, footerContent)))
  }

  /** A given header always wins, with no close button; otherwise a title gives a
      header with its close button; with neither there is no header. */
  lemma HeaderPrecedence(title: string, header: Node)
    ensures Truthy(header) ==> RenderHeader(title, header) == CustomHeader(header)
    ensures HasCloseButton(RenderHeader(title, header)) <==> !Truthy(header) && title != ""
    ensures RenderHeader(title, header) == NoHeader <==> !Truthy(header) && title == ""
  {
  }

  /** The footer row is shown exactly when `showFooter` holds and one of the two
      footer props is truthy, and then `footer` wins over `footerContent`; a falsy pair
      ending in the number 0 leaves a bare "0" after the body. */
  lemma FooterPrecedence(showFooter: bool, footer: Node, footerContent: Node)
    ensures RenderFooter(showFooter, footer, footerContent).FooterRow? <==>
      showFooter && (Truthy(footer) || Truthy(footerContent))
    ensures showFooter && Truthy(footer) ==> RenderFooter(showFooter, footer, footerContent) == FooterRow(footer)
    ensures showFooter && !Truthy(footer) && Truthy(footerContent) ==>
      RenderFooter(showFooter, footer, footerContent) == FooterRow(footerContent)
    ensures showFooter && !Truthy(footer) && footerContent == Number(0) ==>
      RenderFooter(showFooter, footer, footerContent) == StrayText("0")
  {
  }

  /** Footer props without `showFooter` are never displayed. */
  lemma FooterNeedsShowFooter(footer: Node, footerContent: Node)
    ensures RenderFooter(false, footer, footerContent) == NoFooter
  {
  }

  /** An open dialog whose only footer prop is the number 0 shows "0" after its body. */
  lemma ZeroFooterPrintsZero(children: Node)
    ensures var v := Render(true, "", Nothing, children, true, Nothing, Number(0));
      v.Some? && v.value.footer == StrayText("0")
  {
  }
}
