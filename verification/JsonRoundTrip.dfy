/** Parsing undoes serializing, in compact and in pretty form, exactly up to the nesting limit. */
module JsonRoundTrip {
  import opened Bytes
  import opened Collections
  import opened JsonValues
  import opened JsonSyntax
  import opened JsonGrammar
  import opened JsonAccepts
  import opened JsonLayout

  /** At any depth and before any delimiter, parsing the text of a value returns it and leaves the rest,
      exactly when it nests within the limit. */
  lemma ParseUndoesText(v: Json, level: nat, pretty: bool, nesting: nat, rest: seq<cbyte>)
    requires Distinct(v) && NoDoubles(v) && Delimited(rest)
    ensures ParseValue(Text(v, level, pretty) + rest, nesting) == if Fits(v, nesting) then Ok(v, rest) else Fail
  {
    hide ParseValue, Text, Spell, Laid, Valid, ValueOf, Fits;
    TextIsLaid(v, level, pretty);
    TreeParses(Laid(v, level, pretty), nesting, rest);
  }

  /** Parsing the serialized text of a value gives the value back if at most 2048 containers enclose any
      part of it, and fails otherwise. */
  lemma RoundTrip(v: Json, pretty: bool)
    requires Distinct(v) && NoDoubles(v)
    ensures ParseText(Text(v, 0, pretty)) == if Height(v) <= 2048 then Some(v) else None
  {
    hide ParseText, Text, Spell, Laid, Valid, ValueOf;
    var s, t := Text(v, 0, pretty), Laid(v, 0, pretty);
    TextIsLaid(v, 0, pretty);
    assert s == Mark(false) + ([] + (Spell(t) + []));
    TextParses(s, false, [], t, []);
  }
}
