/** The parser of the `link` command, `link e/EVENT_NAME c/CONTACT_NAME`,
    which links a contact to an event.

    Parsing starts from the tokenized arguments and decides, in this order:
    1. both `e/` and `c/` must have a value and the preamble must be empty,
       otherwise the command has an invalid format (reported with the usage
       text of `link`);
    2. neither `e/` nor `c/` may be given twice;
    3. the event name, then the contact name, must be valid;
    and then builds the command from the two names.

    What makes a name valid is decided outside this model; the two rules are
    parameters of the parser. */
module LinkParser {
  import opened Results
  import opened Arguments

  /** The name of the event to link to. */
  datatype EventName = EventName(text: string)

  /** The name of the contact to link. */
  datatype ContactName = ContactName(text: string)

  datatype LinkCommand = LinkCommand(eventName: EventName, contactName: ContactName)

  /** The usage texts a format error can carry; only the `link` command's is
      needed here. */
  datatype Usage = LinkUsage

  datatype ParseError =
    | InvalidCommandFormat(usage: Usage)
    | DuplicatePrefixes(prefixes: seq<Prefix>)
    | EventNameConstraints
    | ContactNameConstraints

  /** The validity rules of the two kinds of names. */
  datatype NameRules = NameRules(isValidEventName: string -> bool, isValidName: string -> bool)

  const EventPrefix: Prefix := Prefix("e/")
  const ContactPrefix: Prefix := Prefix("c/")

  /** The prefixes the `link` command takes, in the order it checks them. */
  const LinkPrefixes: seq<Prefix> := [EventPrefix, ContactPrefix]

  /** True when every prefix in `prefixes` has a value in `m`. */
  function ArePrefixesPresent(m: ArgumentMultimap, prefixes: seq<Prefix>): (r: bool)
    ensures r <==> forall i :: 0 <= i < |prefixes| ==> GetValue(m, prefixes[i]).Some?
  {
    |prefixes| == 0 || (GetValue(m, prefixes[0]).Some? && ArePrefixesPresent(m, prefixes[1..]))
  }

  function ParseEventName(s: string, rules: NameRules): (r: Result<EventName, ParseError>)
    ensures r.Ok? <==> rules.isValidEventName(s)
    ensures r.Ok? ==> r.value.text == s
    ensures r.Err? ==> r.error == EventNameConstraints
  {
    if rules.isValidEventName(s) then Ok(EventName(s)) else Err(EventNameConstraints)
  }

  function ParseContactName(s: string, rules: NameRules): (r: Result<ContactName, ParseError>)
    ensures r.Ok? <==> rules.isValidName(s)
    ensures r.Ok? ==> r.value.text == s
    ensures r.Err? ==> r.error == ContactNameConstraints
  {
    if rules.isValidName(s) then Ok(ContactName(s)) else Err(ContactNameConstraints)
  }

  /** Parses the tokenized arguments of a `link` command. */
  function Parse(m: ArgumentMultimap, rules: NameRules): Result<LinkCommand, ParseError>
  {
    if !ArePrefixesPresent(m, LinkPrefixes) || m.preamble != "" then
      Err(InvalidCommandFormat(LinkUsage))
    else
      var duplicated := DuplicatedPrefixes(m, LinkPrefixes);
      if duplicated != [] then
        Err(DuplicatePrefixes(duplicated))
      else
        assert GetValue(m, LinkPrefixes[0]).Some? && GetValue(m, LinkPrefixes[1]).Some?;
        var eventName :- ParseEventName(GetValue(m, EventPrefix).value, rules);
        var contactName :- ParseContactName(GetValue(m, ContactPrefix).value, rules);
        Ok(LinkCommand(eventName, contactName))
  }

  /** The arguments of `link e/EVENT c/CONTACT` with nothing else given. */
  function LinkArguments(eventName: string, contactName: string): ArgumentMultimap
  {
    ArgumentMultimap(map[EventPrefix := [eventName], ContactPrefix := [contactName]], "")
  }

  // ---------------------------------------------------------------------
  // Properties of Parse

  /** Both link prefixes have a value exactly when each has one. */
  lemma LinkPrefixesPresentIff(m: ArgumentMultimap)
    ensures ArePrefixesPresent(m, LinkPrefixes) <==>
      AllValues(m, EventPrefix) != [] && AllValues(m, ContactPrefix) != []
  {
  }

  /** The duplicate-prefix error names exactly the link prefixes that were
      given twice or more, `e/` before `c/`. */
  lemma LinkDuplicates(m: ArgumentMultimap)
    ensures DuplicatedPrefixes(m, LinkPrefixes) ==
      (if |AllValues(m, EventPrefix)| > 1 then [EventPrefix] else [])
      + (if |AllValues(m, ContactPrefix)| > 1 then [ContactPrefix] else [])
  {
    var d := Distinct(LinkPrefixes);
    assert d == LinkPrefixes by {
      assert Distinct(LinkPrefixes[..1]) == [EventPrefix];
    }
    assert LinkPrefixes[1..] == [ContactPrefix];
    assert [ContactPrefix][1..] == [];
    assert RepeatedAmong(m, [ContactPrefix]) ==
      if |AllValues(m, ContactPrefix)| > 1 then [ContactPrefix] else [];
  }

  /** A format error is reported exactly when `e/` or `c/` has no value or
      the preamble is not empty, whatever the name rules. */
  lemma ParseFormatErrorIff(m: ArgumentMultimap, rules: NameRules)
    ensures Parse(m, rules) == Err(InvalidCommandFormat(LinkUsage)) <==>
      GetValue(m, EventPrefix).None? || GetValue(m, ContactPrefix).None? || m.preamble != ""
  {
  }

  /** The presence and preamble checks, and then the duplicate check, come
      before any name is validated: when either rejects the arguments, the
      result does not depend on the name rules and is not a name error. */
  lemma ParseChecksShapeFirst(m: ArgumentMultimap, rules: NameRules, otherRules: NameRules)
    requires GetValue(m, EventPrefix).None? || GetValue(m, ContactPrefix).None? || m.preamble != ""
      || |AllValues(m, EventPrefix)| > 1 || |AllValues(m, ContactPrefix)| > 1
    ensures Parse(m, rules) == Parse(m, otherRules)
    ensures Parse(m, rules).Err?
    ensures Parse(m, rules).error != EventNameConstraints
    ensures Parse(m, rules).error != ContactNameConstraints
  {
  }

  /** With both prefixes present and an empty preamble, a repeated `e/` or
      `c/` is reported as a duplicate-prefix error naming the repeated ones. */
  lemma ParseDuplicateError(m: ArgumentMultimap, rules: NameRules)
    requires AllValues(m, EventPrefix) != [] && AllValues(m, ContactPrefix) != [] && m.preamble == ""
    requires |AllValues(m, EventPrefix)| > 1 || |AllValues(m, ContactPrefix)| > 1
    ensures Parse(m, rules).Err? && Parse(m, rules).error.DuplicatePrefixes?
    ensures forall p :: p in Parse(m, rules).error.prefixes <==>
      (p == EventPrefix || p == ContactPrefix) && |AllValues(m, p)| > 1
  {
  }

  /** Once the arguments have the right shape, the event name is validated
      before the contact name. */
  lemma ParseNameErrors(m: ArgumentMultimap, rules: NameRules, eventText: string, contactText: string)
    requires AllValues(m, EventPrefix) == [eventText] && AllValues(m, ContactPrefix) == [contactText]
    requires m.preamble == ""
    ensures !rules.isValidEventName(eventText) ==> Parse(m, rules) == Err(EventNameConstraints)
    ensures rules.isValidEventName(eventText) && !rules.isValidName(contactText) ==>
      Parse(m, rules) == Err(ContactNameConstraints)
  {
    LinkPrefixesPresentIff(m);
    LinkDuplicates(m);
  }

  /** Parsing succeeds with `cmd` exactly when the preamble is empty, `e/`
      was given once with the event name of `cmd`, `c/` was given once with
      the contact name of `cmd`, and both names are valid; so the event name
      comes from `e/` and the contact name from `c/`, never swapped. */
  lemma ParseSucceedsIff(m: ArgumentMultimap, rules: NameRules, cmd: LinkCommand)
    ensures Parse(m, rules) == Ok(cmd) <==>
      && m.preamble == ""
      && AllValues(m, EventPrefix) == [cmd.eventName.text]
      && AllValues(m, ContactPrefix) == [cmd.contactName.text]
      && rules.isValidEventName(cmd.eventName.text)
      && rules.isValidName(cmd.contactName.text)
  {
    LinkPrefixesPresentIff(m);
    LinkDuplicates(m);
    if Parse(m, rules) == Ok(cmd) {
      assert |AllValues(m, EventPrefix)| == 1;
      assert |AllValues(m, ContactPrefix)| == 1;
    }
  }

  /** `link e/EVENT c/CONTACT` with two valid names parses to the command
      carrying exactly those names. */
  lemma ParseLinkArguments(eventName: string, contactName: string, rules: NameRules)
    requires rules.isValidEventName(eventName) && rules.isValidName(contactName)
    ensures Parse(LinkArguments(eventName, contactName), rules) ==
      Ok(LinkCommand(EventName(eventName), ContactName(contactName)))
  {
    var m := LinkArguments(eventName, contactName);
    assert AllValues(m, EventPrefix) == [eventName];
    assert AllValues(m, ContactPrefix) == [contactName];
    ParseSucceedsIff(m, rules, LinkCommand(EventName(eventName), ContactName(contactName)));
  }
}
