/**
 * The contact value type: a record with an immutable `id`, four editable fields and
 * the derived `fullName`, plus the `Type` enumeration whose string raw values are the
 * labels the edit form parses.
 */
module Contacts {
  import opened Wrappers

  /** Swift's `Type` enum (renamed: `type` is a keyword here). */
  datatype ContactType = Work | Cellphone | Home

  /** The raw value of each case is the case's own name, and it parses back to that case. */
  function RawValue(t: ContactType): (r: string)
    ensures ParseType(r) == Some(t)
  {
    match t
    case Work => "Work"
    case Cellphone => "Cellphone"
    case Home => "Home"
  }

  /** `Type(rawValue:)`: succeeds on exactly the three case names. */
  function ParseType(s: string): (r: Option<ContactType>)
    ensures r.Some? <==> s == "Work" || s == "Cellphone" || s == "Home"
  {
    if s == "Work" then Some(Work)
    else if s == "Cellphone" then Some(Cellphone)
    else if s == "Home" then Some(Home)
    else None
  }

  lemma RawValueInjective(t: ContactType, u: ContactType)
    ensures RawValue(t) == RawValue(u) ==> t == u
  {
  }

  /** A successful parse returns the case whose raw value is the input; a failed one means no case has it. */
  lemma ParseTypeInverse(s: string)
    ensures ParseType(s).Some? ==> RawValue(ParseType(s).value) == s
    ensures ParseType(s).None? ==> forall t: ContactType :: RawValue(t) != s
  {
  }

  /** A contact. The field `kind` is Swift's `type`. */
  datatype Contact = Contact(
    id: string,
    firstName: string,
    lastName: string,
    phoneNumber: string,
    kind: ContactType)

  /** The set of ids present in a sequence of contacts. */
  function Ids(s: seq<Contact>): set<string>
  {
    set x | x in s :: x.id
  }

  /** `fullName`: first name, one space, last name. */
  function FullName(c: Contact): (r: string)
    ensures |r| == |c.firstName| + |c.lastName| + 1
    ensures r[..|c.firstName|] == c.firstName
    ensures r[|c.firstName|] == ' '
    ensures r[|c.firstName| + 1..] == c.lastName
  {
    c.firstName + " " + c.lastName
  }

  /**
   * The memberwise part of `init`. The identifier, which the source derives from a
   * random UUID and the clock, is a parameter.
   */
  function NewContact(id: string, firstName: string, lastName: string, phoneNumber: string, kind: ContactType): (c: Contact)
    ensures c.id == id
    ensures c.firstName == firstName && c.lastName == lastName
    ensures c.phoneNumber == phoneNumber && c.kind == kind
  {
    Contact(id, firstName, lastName, phoneNumber, kind)
  }

  /** An assignment to one of the four `var` fields. There is none for `id`, which is a `let`. */
  datatype Edit =
    | SetFirstName(firstName: string)
    | SetLastName(lastName: string)
    | SetPhoneNumber(phoneNumber: string)
    | SetKind(kind: ContactType)

  function ApplyEdit(c: Contact, e: Edit): (r: Contact)
    ensures r.id == c.id
    ensures r.firstName == (if e.SetFirstName? then e.firstName else c.firstName)
    ensures r.lastName == (if e.SetLastName? then e.lastName else c.lastName)
    ensures r.phoneNumber == (if e.SetPhoneNumber? then e.phoneNumber else c.phoneNumber)
    ensures r.kind == (if e.SetKind? then e.kind else c.kind)
  {
    match e
    case SetFirstName(v) => c.(firstName := v)
    case SetLastName(v) => c.(lastName := v)
    case SetPhoneNumber(v) => c.(phoneNumber := v)
    case SetKind(v) => c.(kind := v)
  }

  /** The four assignable fields. */
  datatype Field = FirstNameField | LastNameField | PhoneNumberField | KindField

  /** The field an assignment writes. */
  function FieldOf(e: Edit): Field
  {
    match e
    case SetFirstName(_) => FirstNameField
    case SetLastName(_) => LastNameField
    case SetPhoneNumber(_) => PhoneNumberField
    case SetKind(_) => KindField
  }

  /** The last assignment in `es` that writes field `f`, if there is one. */
  function LastAssignment(es: seq<Edit>, f: Field): (r: Option<Edit>)
    ensures r.Some? ==> FieldOf(r.value) == f && r.value in es
    ensures r.None? <==> forall i :: 0 <= i < |es| ==> FieldOf(es[i]) != f
    decreases |es|
  {
    if es == [] then None
    else if FieldOf(es[|es| - 1]) == f then Some(es[|es| - 1])
    else LastAssignment(es[..|es| - 1], f)
  }

  /** The assignment found is the last one to that field: no later assignment writes it. */
  lemma {:induction false} LastAssignmentIsLast(es: seq<Edit>, f: Field)
    requires LastAssignment(es, f).Some?
    ensures exists i ::
      && 0 <= i < |es|
      && es[i] == LastAssignment(es, f).value
      && forall j :: i < j < |es| ==> FieldOf(es[j]) != f
    decreases |es|
  {
    var n := |es| - 1;
    if FieldOf(es[n]) == f {
      assert es[n] == LastAssignment(es, f).value;
    } else {
      var init := es[..n];
      LastAssignmentIsLast(init, f);
      var i :| 0 <= i < |init| && init[i] == LastAssignment(init, f).value
        && forall j :: i < j < |init| ==> FieldOf(init[j]) != f;
      assert es[i] == LastAssignment(es, f).value;
      assert forall j :: i < j < |es| ==> FieldOf(es[j]) != f by {
        forall j | i < j < |es|
          ensures FieldOf(es[j]) != f
        {
          if j < n {
            assert es[j] == init[j];
          }
        }
      }
    }
  }

  /**
   * A run of assignments, applied in order: the id never changes, and every field ends
   * with the value of its last assignment, or keeps its old value when it was never
   * assigned.
   */
  function ApplyEdits(c: Contact, es: seq<Edit>): (r: Contact)
    ensures r.id == c.id
    ensures r.firstName == match LastAssignment(es, FirstNameField)
      case Some(e) => e.firstName case None => c.firstName
    ensures r.lastName == match LastAssignment(es, LastNameField)
      case Some(e) => e.lastName case None => c.lastName
    ensures r.phoneNumber == match LastAssignment(es, PhoneNumberField)
      case Some(e) => e.phoneNumber case None => c.phoneNumber
    ensures r.kind == match LastAssignment(es, KindField)
      case Some(e) => e.kind case None => c.kind
    decreases |es|
  {
    if es == [] then c else ApplyEdit(ApplyEdits(c, es[..|es| - 1]), es[|es| - 1])
  }

  /** The edit form assigns all four fields before it updates: only the id survives from the old value. */
  lemma EditFormAssignments(c: Contact, firstName: string, lastName: string, phoneNumber: string, kind: ContactType)
    ensures ApplyEdits(c, [SetFirstName(firstName), SetLastName(lastName), SetPhoneNumber(phoneNumber), SetKind(kind)])
      == Contact(c.id, firstName, lastName, phoneNumber, kind)
  {
    var es := [SetFirstName(firstName), SetLastName(lastName), SetPhoneNumber(phoneNumber), SetKind(kind)];
    assert LastAssignment(es, FirstNameField) == Some(es[0]) by {
      assert es[..3][..2][..1] == [es[0]];
    }
    assert LastAssignment(es, LastNameField) == Some(es[1]) by {
      assert es[..3][..2] == [es[0], es[1]];
    }
    assert LastAssignment(es, PhoneNumberField) == Some(es[2]);
    assert LastAssignment(es, KindField) == Some(es[3]);
  }
}
