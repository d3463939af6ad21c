/** Tokenized command arguments: what the command-line tokenizer hands to a
    command parser. Every prefix that appeared in the command text is mapped to
    the values given after it, in order of appearance; the text before the
    first prefix is the preamble.

    The tokenizer itself is not part of this model; a parser receives its
    output as a value of `ArgumentMultimap`. */
module Arguments {
  import opened Results

  /** An argument prefix such as `e/`. */
  datatype Prefix = Prefix(text: string)

  datatype ArgumentMultimap = ArgumentMultimap(values: map<Prefix, seq<string>>, preamble: string)

  /** Every value recorded for `p`, oldest first; empty when `p` never appeared. */
  function AllValues(m: ArgumentMultimap, p: Prefix): seq<string>
  {
    if p in m.values then m.values[p] else []
  }

  /** The value of `p`: the one given last, or None when `p` has no value. */
  function GetValue(m: ArgumentMultimap, p: Prefix): (r: Option<string>)
    ensures r.None? <==> AllValues(m, p) == []
    ensures r.Some? ==> r.value in AllValues(m, p)
    ensures |AllValues(m, p)| == 1 ==> r == Some(AllValues(m, p)[0])
  {
    var vs := AllValues(m, p);
    if |vs| == 0 then None else Some(vs[|vs| - 1])
  }

  ghost predicate NoRepeats(ps: seq<Prefix>)
  {
    forall i, j :: 0 <= i < j < |ps| ==> ps[i] != ps[j]
  }

  /** `ps` with every prefix kept at its first occurrence only. */
  function Distinct(ps: seq<Prefix>): (r: seq<Prefix>)
    ensures forall p :: p in r <==> p in ps
    ensures NoRepeats(r)
  {
    if |ps| == 0 then []
    else
      var rest := Distinct(ps[..|ps| - 1]);
      var last := ps[|ps| - 1];
      if last in rest then rest else rest + [last]
  }

  /** The prefixes of `ps` that were given more than one value, in order. */
  function RepeatedAmong(m: ArgumentMultimap, ps: seq<Prefix>): (r: seq<Prefix>)
    ensures forall p :: p in r <==> p in ps && |AllValues(m, p)| > 1
    ensures NoRepeats(ps) ==> NoRepeats(r)
  {
    if |ps| == 0 then []
    else
      var rest := RepeatedAmong(m, ps[1..]);
      if |AllValues(m, ps[0])| > 1 then [ps[0]] + rest else rest
  }

  /** The prefixes among `ps` that were given more than one value, each named
      once, in the order of their first occurrence in `ps`. A non-empty result
      is the duplicate-prefix error. */
  function DuplicatedPrefixes(m: ArgumentMultimap, ps: seq<Prefix>): (r: seq<Prefix>)
    ensures forall p :: p in r <==> p in ps && |AllValues(m, p)| > 1
    ensures NoRepeats(r)
  {
    RepeatedAmong(m, Distinct(ps))
  }
}
