/**
 A minimal quote-aware reader for one comma-separated record, used as the
 reference against which the reformatted lines are judged. Outside quotes a
 comma ends the current field; a double quote switches between quoted and
 unquoted mode and is not part of the field; every other character, a comma
 inside quotes and a newline included, belongs to the current field. Doubled
 quotes are not treated as an escape.
 */
module CsvReader {

  /** Reads the fields of `s`, `quoted` telling whether a quote is open and `field` holding the field read so far. */
  function ReadFields(s: string, quoted: bool, field: string): (fields: seq<string>)
    ensures |fields| >= 1
    decreases |s|
  {
    if s == [] then [field]
    else if s[0] == '"' then ReadFields(s[1..], !quoted, field)
    else if s[0] == ',' && !quoted then [field] + ReadFields(s[1..], false, [])
    else ReadFields(s[1..], quoted, field + [s[0]])
  }

  /** The fields of one record. */
  function ReadRecord(s: string): seq<string> {
    ReadFields(s, false, [])
  }

  /**
   Text without quotes, and without commas unless a quote is open, is taken
   into the current field character by character.
   */
  lemma {:induction false} ReadVerbatim(t: string, rest: string, quoted: bool, field: string)
    requires '"' !in t
    requires !quoted ==> ',' !in t
    ensures ReadFields(t + rest, quoted, field) == ReadFields(rest, quoted, field + t)
    decreases |t|
  {
    if t != [] {
      assert (t + rest)[0] == t[0];
      assert (t + rest)[1..] == t[1..] + rest;
      ReadVerbatim(t[1..], rest, quoted, field + [t[0]]);
      assert field + [t[0]] + t[1..] == field + t;
    } else {
      assert t + rest == rest;
      assert field + t == field;
    }
  }
}
