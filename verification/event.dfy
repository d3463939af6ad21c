/** The `Event` entity of the address book: an identity field (the name), two
    fixed data fields (date and address) and the set of contacts linked to it.

    The contact type is the type parameter `P`. Two notions of "same contact"
    are in play, as in the address book itself:
    - `==` on `P` is a contact's full equality; it is what the contact set
      uses to decide whether an element is already present;
    - `sameAs(a, b)` is the weaker "same person" relation of the contact type
      (its identity rule). It is not part of this model, so every member that
      needs it takes it as a parameter. Being a function of its arguments, it
      gives the same answer for two contacts equal under `==`; beyond that,
      nothing is assumed about it unless a property says otherwise.

    Java mutates the contact set in place when a contact is linked; here an
    event is an immutable value and linking returns the updated event. */
module EventModel {
  import opened Results

  /** The event's name: its identity field. Its class is not part of this
      model; `==` stands for its `equals`. */
  type Name(==)

  /** The event's date; `==` stands for its `equals`. */
  type EventDate(==)

  /** The event's address; `==` stands for its `equals`. */
  type Address(==)

  datatype Event<P> = Event(name: Name, date: EventDate, address: Address, contacts: set<P>)

  /** What `equals(Object)` can receive: a null reference, an event, or an
      object of some other class. */
  datatype ObjectRef<P> = NullRef | EventRef(event: Event<P>) | OtherObject

  /** The constructor: the three fields are stored as given and the given
      contacts are copied into the event's own (initially empty) set. */
  function NewEvent<P>(name: Name, date: EventDate, address: Address, contacts: set<P>): (e: Event<P>)
    ensures e.name == name && e.date == date && e.address == address
    ensures e.contacts == contacts
  {
    Event(name, date, address, contacts)
  }

  /** The linked contacts, as a value: a caller cannot change the event through it. */
  function GetContacts<P>(e: Event<P>): set<P>
  {
    e.contacts
  }

  /** An event is linked to `contact` when some linked contact is the same
      person as it, in the direction `contact.isSamePerson(linked)`. */
  ghost predicate Linked<P>(e: Event<P>, contact: P, sameAs: (P, P) -> bool)
  {
    exists c :: c in e.contacts && sameAs(contact, c)
  }

  /** The query that scans the linked contacts for one that is the same person
      as `contact`, stopping at the first match. */
  method IsLinkedToContact<P(==)>(e: Event<P>, contact: P, sameAs: (P, P) -> bool) returns (linked: bool)
    ensures linked <==> Linked(e, contact, sameAs)
    ensures e.contacts == {} ==> !linked
  {
    var rest := e.contacts;
    while rest != {}
      invariant rest <= e.contacts
      invariant forall c :: c in e.contacts && c !in rest ==> !sameAs(contact, c)
      decreases rest
    {
      var c :| c in rest;
      if sameAs(contact, c) {
        return true;
      }
      rest := rest - {c};
    }
    return false;
  }

  /** Links `toLink` to the event: the contact set gains it (a no-op when an
      equal contact is already there) and no other field changes. */
  function LinkContact<P>(e: Event<P>, toLink: P): (r: Event<P>)
    ensures r.name == e.name && r.date == e.date && r.address == e.address
    ensures r.contacts == e.contacts + {toLink}
  {
    e.(contacts := e.contacts + {toLink})
  }

  /** Weak equality: `otherEvent` (None standing for null) has the same name.
      The first branch is Java's `otherEvent == this` test. */
  function IsSameEvent<P(==)>(e: Event<P>, otherEvent: Option<Event<P>>): bool
  {
    if otherEvent == Some(e) then true
    else otherEvent.Some? && otherEvent.value.name == e.name
  }

  /** Strong equality: `other` is an event whose four fields all equal this
      event's. The first branch is Java's `other == this` test. */
  function EventEquals<P(==)>(e: Event<P>, other: ObjectRef<P>): bool
  {
    if other == EventRef(e) then true
    else match other
      case EventRef(o) =>
        e.name == o.name && e.date == o.date && e.address == o.address && e.contacts == o.contacts
      case _ => false
  }

  // ---------------------------------------------------------------------
  // Construction and the exposed contact set

  /** A new event exposes exactly the contacts it was built with, and linking
      adds exactly the linked contact to what is exposed. */
  lemma ContactsExposed<P>(name: Name, date: EventDate, address: Address, contacts: set<P>, e: Event<P>, p: P)
    ensures GetContacts(NewEvent(name, date, address, contacts)) == contacts
    ensures GetContacts(LinkContact(e, p)) == GetContacts(e) + {p}
  {
  }

  // ---------------------------------------------------------------------
  // Linking

  /** Linking the same contact twice is the same as linking it once. */
  lemma LinkContactIdempotent<P>(e: Event<P>, p: P)
    ensures LinkContact(LinkContact(e, p), p) == LinkContact(e, p)
  {
  }

  /** The order in which two contacts are linked does not matter. */
  lemma LinkContactCommutes<P>(e: Event<P>, p: P, q: P)
    ensures LinkContact(LinkContact(e, p), q) == LinkContact(LinkContact(e, q), p)
  {
  }

  /** Linking leaves the event unchanged exactly when the contact is already
      in its set. */
  lemma LinkContactNoOpIffPresent<P>(e: Event<P>, p: P)
    ensures LinkContact(e, p) == e <==> p in e.contacts
  {
  }

  /** After linking `p`, a contact is linked exactly when it was linked before
      or it is the same person as `p`. */
  lemma LinkedAfterLinkContact<P>(e: Event<P>, p: P, q: P, sameAs: (P, P) -> bool)
    ensures Linked(LinkContact(e, p), q, sameAs) <==> Linked(e, q, sameAs) || sameAs(q, p)
  {
  }

  /** Linking is monotone: whoever was linked before is still linked after. */
  lemma LinkingIsMonotone<P>(e: Event<P>, p: P, q: P, sameAs: (P, P) -> bool)
    requires Linked(e, q, sameAs)
    ensures Linked(LinkContact(e, p), q, sameAs)
  {
  }

  /** When "same person" is reflexive on `p`, `p` is linked once linked. */
  lemma LinkedOnceLinked<P>(e: Event<P>, p: P, sameAs: (P, P) -> bool)
    requires sameAs(p, p)
    ensures Linked(LinkContact(e, p), p, sameAs)
  {
  }

  /** An event with no contacts is linked to nobody. */
  lemma NoContactsNoLinks<P>(e: Event<P>, q: P, sameAs: (P, P) -> bool)
    requires e.contacts == {}
    ensures !Linked(e, q, sameAs)
  {
  }

  // ---------------------------------------------------------------------
  // Weak equality

  /** `isSameEvent` holds exactly for a non-null event with the same name,
      whatever its date, address and contacts. */
  lemma IsSameEventIff<P>(e: Event<P>, otherEvent: Option<Event<P>>)
    ensures IsSameEvent(e, otherEvent) <==> otherEvent.Some? && otherEvent.value.name == e.name
  {
  }

  /** `isSameEvent` is reflexive and false for null. */
  lemma IsSameEventReflexiveNotNull<P>(e: Event<P>)
    ensures IsSameEvent(e, Some(e))
    ensures !IsSameEvent(e, None)
  {
  }

  /** `isSameEvent` is symmetric and transitive on non-null events. */
  lemma IsSameEventEquivalence<P>(a: Event<P>, b: Event<P>, c: Event<P>)
    ensures IsSameEvent(a, Some(b)) <==> IsSameEvent(b, Some(a))
    ensures IsSameEvent(a, Some(b)) && IsSameEvent(b, Some(c)) ==> IsSameEvent(a, Some(c))
  {
  }

  /** Linking a contact never changes an event's identity. */
  lemma LinkContactKeepsIdentity<P>(e: Event<P>, p: P)
    ensures IsSameEvent(LinkContact(e, p), Some(e))
  {
  }

  // ---------------------------------------------------------------------
  // Strong equality

  /** `equals` holds exactly for an event with equal name, date, address and
      contact set; null and objects of other classes are never equal. */
  lemma EventEqualsIff<P>(e: Event<P>, other: ObjectRef<P>)
    ensures EventEquals(e, other) <==>
      other.EventRef? && other.event.name == e.name && other.event.date == e.date
      && other.event.address == e.address && other.event.contacts == e.contacts
    ensures EventEquals(e, other) <==> other == EventRef(e)
  {
  }

  /** Strong equality implies weak equality. */
  lemma EventEqualsImpliesSameEvent<P>(e: Event<P>, o: Event<P>)
    requires EventEquals(e, EventRef(o))
    ensures IsSameEvent(e, Some(o))
  {
  }

  /** An event stays equal to itself after a link exactly when the contact was
      already linked by full equality. */
  lemma LinkContactKeepsEqualityIffPresent<P>(e: Event<P>, p: P)
    ensures EventEquals(LinkContact(e, p), EventRef(e)) <==> p in e.contacts
  {
  }
}
