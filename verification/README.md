# Events and the `link` command of the address book

This project models two pieces of a desktop address book that keeps contacts,
events and tasks, and lets a contact be linked to an event:

- the **`Event`** entity (`event.dfy`, module `EventModel`): a name (its
  identity), a date, an address and the set of contacts linked to it, with
  construction, the exposed contact set, the "is this contact linked" query,
  linking, and the weak (`isSameEvent`) and strong (`equals`) equalities;
- the **parser of `link e/EVENT c/CONTACT`** (`link_parser.dfy`, module
  `LinkParser`): from the tokenized arguments it reports an invalid-format
  error, a duplicate-prefix error or a name error, in that order, or builds
  the `LinkCommand` from the two names.

Supporting files: `results.dfy` (module `Results`: `Option`, standing also for
a nullable reference, and `Result`, standing for a value or the
`ParseException` thrown) and `arguments.dfy` (module `Arguments`: tokenized
arguments, prefix → list of values plus a preamble).

Modelling choices:

- The contact type is the type parameter `P` of `Event<P>`. `==` on `P` is a
  contact's full equality (what the contact `HashSet` uses); the weaker
  `isSamePerson` relation is a parameter `sameAs: (P, P) -> bool`. Because
  `sameAs` is a function and `==` is substitutive, the model assumes that two
  contacts equal under `Person.equals` give the same `isSamePerson` answers.
  When an equal contact is already in the set, Java's `contacts.add(p)` keeps
  the stored one, so later queries test against it rather than `p`; under
  this assumption the answers are the same. Nothing else is assumed about
  `sameAs`, except reflexivity on one contact in the one lemma that needs it.
- `Name`, `EventDate` and `Address` are opaque types whose `==` stands for
  their classes' `equals` methods, which are not part of this model.
- An event is an immutable value: `LinkContact` returns the updated event
  where the Java method adds to the event's set in place.
- A `null` argument of `isSameEvent` is `None`; the argument of
  `equals(Object)` is an `ObjectRef`: null, an event, or another object. Java's
  `other == this` test is modelled as value equality (the same object has the
  same fields).
- The two name-validity rules are parameters of the parser (`NameRules`).
- `GetValue` returns the value given last for a prefix and `DuplicatedPrefixes`
  lists, in the order asked, the prefixes given more than once: the behaviour
  of the argument multimap on which the parser relies. The multimap's own
  source is not part of this model.
- Errors are tagged values (`InvalidCommandFormat(LinkUsage)`,
  `DuplicatePrefixes(prefixes)`, `EventNameConstraints`,
  `ContactNameConstraints`) rather than message strings.
- `arePrefixesPresent` asks only that `getValue(prefix).isPresent()`, so an
  empty value such as `e/ c/Alice` counts as present and is then judged by
  the event-name rule.

## Model

| member | source | states |
|---|---|---|
| EventModel.NewEvent | src/main/java/seedu/address/model/event/Event.java:37-43 | a new event holds the given name, date and address and exactly the given contacts |
| EventModel.ContactsExposed | src/main/java/seedu/address/model/event/Event.java:57-63 | the exposed contact set of a new event is the set it was built with, and after linking `p` it is the earlier set plus `p` |
| EventModel.IsLinkedToContact | src/main/java/seedu/address/model/event/Event.java:71-73 | the scan of the contacts answers true iff some linked contact `c` has `contact.isSamePerson(c)`; an event with no contacts answers false |
| EventModel.LinkContact | src/main/java/seedu/address/model/event/Event.java:79-81 | linking makes the contact set the old set plus the linked contact and leaves name, date and address unchanged |
| EventModel.LinkContactIdempotent | src/main/java/seedu/address/model/event/Event.java:79-81 | linking the same contact twice gives the same event as linking it once |
| EventModel.LinkContactCommutes | src/main/java/seedu/address/model/event/Event.java:79-81 | linking two contacts in either order gives the same event |
| EventModel.LinkContactNoOpIffPresent | src/main/java/seedu/address/model/event/Event.java:79-81 | linking leaves the event unchanged iff an equal contact is already linked |
| EventModel.LinkedAfterLinkContact | src/main/java/seedu/address/model/event/Event.java:71-81 | after linking `p`, a contact `q` is linked iff it was linked before or `q.isSamePerson(p)` |
| EventModel.LinkingIsMonotone | src/main/java/seedu/address/model/event/Event.java:71-81 | anyone linked before a link is still linked after it |
| EventModel.LinkedOnceLinked | src/main/java/seedu/address/model/event/Event.java:71-81 | if `p.isSamePerson(p)`, then `p` is linked after linking `p` |
| EventModel.NoContactsNoLinks | src/main/java/seedu/address/model/event/Event.java:71-73 | an event without contacts is linked to nobody |
| EventModel.IsSameEventIff | src/main/java/seedu/address/model/event/Event.java:87-94 | `isSameEvent` holds iff the other event is non-null and has the same name, whatever its date, address and contacts |
| EventModel.IsSameEventReflexiveNotNull | src/main/java/seedu/address/model/event/Event.java:87-94 | `isSameEvent` is reflexive and false for null |
| EventModel.IsSameEventEquivalence | src/main/java/seedu/address/model/event/Event.java:87-94 | `isSameEvent` is symmetric and transitive |
| EventModel.LinkContactKeepsIdentity | src/main/java/seedu/address/model/event/Event.java:79-94 | an event after a link is still the same event as before it |
| EventModel.EventEqualsIff | src/main/java/seedu/address/model/event/Event.java:101-116 | `equals` holds iff the other object is an event with equal name, date, address and contact set; null and objects of other classes are unequal |
| EventModel.EventEqualsImpliesSameEvent | src/main/java/seedu/address/model/event/Event.java:87-116 | strong equality implies weak equality |
| EventModel.LinkContactKeepsEqualityIffPresent | src/main/java/seedu/address/model/event/Event.java:79-116 | an event equals itself-before-the-link iff the linked contact was already in its set |
| Arguments.GetValue | src/main/java/seedu/address/logic/parser/LinkCommandParser.java:34-35 | a prefix's value is absent iff no value was given for it, is one of the given values, and is the only one when exactly one was given |
| Arguments.DuplicatedPrefixes | src/main/java/seedu/address/logic/parser/LinkCommandParser.java:33 | the duplicate check names exactly the asked prefixes given more than once, each once |
| LinkParser.ArePrefixesPresent | src/main/java/seedu/address/logic/parser/LinkCommandParser.java:44-46 | true iff every listed prefix has a value |
| LinkParser.ParseEventName | src/main/java/seedu/address/logic/parser/LinkCommandParser.java:34 | the event name is accepted iff the event-name rule holds, keeping the text, else the event-name error |
| LinkParser.ParseContactName | src/main/java/seedu/address/logic/parser/LinkCommandParser.java:35 | the contact name is accepted iff the person-name rule holds, keeping the text, else the name error |
| LinkParser.LinkPrefixesPresentIff | src/main/java/seedu/address/logic/parser/LinkCommandParser.java:28 | the presence test on `e/`, `c/` holds iff each of them has a value |
| LinkParser.LinkDuplicates | src/main/java/seedu/address/logic/parser/LinkCommandParser.java:33 | the duplicate error for `e/`, `c/` lists those given more than once, `e/` first |
| LinkParser.ParseFormatErrorIff | src/main/java/seedu/address/logic/parser/LinkCommandParser.java:28-31 | parsing fails with the `link` usage format error iff `e/` has no value, `c/` has no value or the preamble is non-empty |
| LinkParser.ParseChecksShapeFirst | src/main/java/seedu/address/logic/parser/LinkCommandParser.java:28-35 | a missing prefix, a preamble or a repeated prefix gives an error that does not depend on the name rules and is never a name error |
| LinkParser.ParseDuplicateError | src/main/java/seedu/address/logic/parser/LinkCommandParser.java:33 | with both prefixes present and no preamble, a repeated `e/` or `c/` gives the duplicate-prefix error naming exactly the repeated ones |
| LinkParser.ParseNameErrors | src/main/java/seedu/address/logic/parser/LinkCommandParser.java:34-35 | an invalid event name is reported before an invalid contact name |
| LinkParser.ParseSucceedsIff | src/main/java/seedu/address/logic/parser/LinkCommandParser.java:24-38 | parsing yields a command iff the preamble is empty, `e/` and `c/` were each given once and both names are valid; the command's event name is the `e/` value and its contact name the `c/` value |
| LinkParser.ParseLinkArguments | src/main/java/seedu/address/logic/parser/LinkCommandParser.java:24-38 | the arguments of `link e/EVENT c/CONTACT` with valid names parse to the command carrying exactly those names |

## Left out

- Tokenizing the raw command text into prefixes, values and preamble: the tokenizer is not part of this model; the parser starts from its output.
- The name-validity rules and the trimming the name parsers apply before validating: not part of this model; the rules are parameters and values are passed on as given.
- The texts of the usage and constraint messages: not part of this model; errors are tagged values.
- The non-null checks of the `Event` constructor: a Dafny value cannot be null.
- The getters of name, date and address, `hashCode`, `toString` and the read-only wrapper around the contact set: plain field access or library plumbing; the exposed set is a value and cannot be modified through.
- The `isSamePerson` relation and full equality of contacts: the contact class is not part of this model; they are a parameter and `==` on `P`, and `isSamePerson` is assumed to answer alike for contacts equal under `equals`.
- The `equals` methods of `Name`, `EventDate` and `Address`: their classes are not part of this model; each is taken to be an equivalence under which equal values are interchangeable, written `==` on an opaque type.
- Null contacts: the contact type has no null. In Java, `isLinkedToContact(null)` throws a `NullPointerException` when `contact::isSamePerson` is evaluated, even for an event without contacts; `linkContact(null)` stores `null` in the set; and the constructor's null check does not look at the elements of the given set. `IsLinkedToContact` and `LinkContact` cover non-null contacts only.
- Executing a `LinkCommand` against the address book, JSON storage, the task reminder predicate, the user interface and logging: outside the two pieces modelled here.
