/** The state of the phonebook's top-level component: the contact list, the
    filter text and the two panel flags, with the handlers that update them
    and the filtered view derived from them. */
module Phonebook {
  import opened Sequences
  import opened Contacts

  /** The two panels the navigation bar opens and closes. */
  datatype Panel = FormPanel | FilterPanel

  datatype Option<T> = None | Some(value: T)

  /** The panel a toggle target names: "form" or "filter"; anything else
      names none. */
  function PanelOf(target: string): (r: Option<Panel>)
    ensures r.None? <==> target != "form" && target != "filter"
    ensures r == Some(FormPanel) ==> target == "form"
    ensures r == Some(FilterPanel) ==> target == "filter"
  {
    if target == "form" then Some(FormPanel)
    else if target == "filter" then Some(FilterPanel)
    else None
  }

  /** The two open/closed flags, as one value. */
  datatype Flags = Flags(isOpenForm: bool, isOpenFilter: bool)

  function IsOpen(f: Flags, p: Panel): (open: bool) {
    match p
    case FormPanel => f.isOpenForm
    case FilterPanel => f.isOpenFilter
  }

  /** Toggling a panel: that panel's flag flips, the other is kept. */
  function Flip(f: Flags, p: Panel): (r: Flags)
    ensures IsOpen(r, p) == !IsOpen(f, p)
    ensures forall q :: q != p ==> IsOpen(r, q) == IsOpen(f, q)
  {
    match p
    case FormPanel => f.(isOpenForm := !f.isOpenForm)
    case FilterPanel => f.(isOpenFilter := !f.isOpenFilter)
  }

  /** Toggling the same panel twice restores the flags. */
  lemma FlipTwice(f: Flags, p: Panel)
    ensures Flip(Flip(f, p), p) == f
  {
  }

  /** The two toggles are independent: their order does not matter. */
  lemma FlipCommutes(f: Flags, p: Panel, q: Panel)
    ensures Flip(Flip(f, p), q) == Flip(Flip(f, q), p)
  {
  }

  /** What a toggle call produces: success, or the error it throws. */
  datatype Outcome = Pass | Fail(message: string)

  const ComponentNotFound := "component not found"

  class PhonebookState {
    var contacts: seq<Contact>
    var filter: string
    var isOpenForm: bool
    var isOpenFilter: bool

    function Toggles(): (f: Flags)
      reads this
    {
      Flags(isOpenForm, isOpenFilter)
    }

    /** The initial state: the seed list, no filter, both panels closed. */
    constructor ()
      ensures contacts == Seed && filter == ""
      ensures !isOpenForm && !isOpenFilter
    {
      contacts := Seed;
      filter := "";
      isOpenForm := false;
      isOpenFilter := false;
    }

    /** A keystroke in the filter input replaces the filter text. */
    method OnSearch(value: string)
      modifies this
      ensures filter == value
      ensures contacts == old(contacts) && Toggles() == old(Toggles())
    {
      filter := value;
    }

    /** Flips the flag of the named panel; an unknown target is an error
        and changes nothing. */
    method Toggle(target: string) returns (r: Outcome)
      modifies this
      ensures r == Pass <==> PanelOf(target).Some?
      ensures r.Fail? ==> r.message == ComponentNotFound && Toggles() == old(Toggles())
      ensures PanelOf(target).Some? ==> Toggles() == Flip(old(Toggles()), PanelOf(target).value)
      ensures contacts == old(contacts) && filter == old(filter)
    {
      if target == "form" {
        isOpenForm := !isOpenForm;
        r := Pass;
      } else if target == "filter" {
        isOpenFilter := !isOpenFilter;
        r := Pass;
      } else {
        r := Fail(ComponentNotFound);
      }
    }

    /** Appends a contact to the end of the list and closes or opens the
        form, as toggling "form" does. */
    method AddContact(data: Contact)
      modifies this
      ensures contacts == old(contacts) + [data]
      ensures Toggles() == Flip(old(Toggles()), FormPanel)
      ensures filter == old(filter)
    {
      contacts := contacts + [data];
      var _ := Toggle("form");
    }

    /** Removes every contact that carries `id`. */
    method DeleteContact(id: string)
      modifies this
      ensures contacts == WithoutId(old(contacts), id)
      ensures filter == old(filter) && Toggles() == old(Toggles())
    {
      contacts := WithoutId(contacts, id);
    }

    /** The contacts on screen: every entry whose name matches the filter,
        in list order. */
    function FilteredContacts(): (r: seq<Contact>)
      reads this
      ensures IsSubsequence(r, contacts)
      ensures forall c :: c in r <==> c in contacts && Matches(c, filter)
      ensures |r| == Count(contacts, Matching(filter))
    {
      FilteredIsSubsequence(contacts, filter);
      Filtered(contacts, filter)
    }
  }
}
