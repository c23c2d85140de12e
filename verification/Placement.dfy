/** `parsePlacement`: sixteen comma-separated numbers into a row-major matrix. */
module Placement {
  import opened NumberGrammar
  import opened Options
  import opened Sequences
  import TextSplit

  const ENTRIES: nat := 16

  predicate IsComma(c: char) {
    c == ','
  }

  function Csv(s: string): seq<string> {
    TextSplit.Fields(s, IsComma)
  }

  predicate Accepted<V>(fields: seq<string>, parse: string -> Option<V>) {
    forall i :: 0 <= i < |fields| ==> parse(fields[i]).Some?
  }

  ghost predicate Parsed<V>(done: seq<string>, parse: string -> Option<V>, values: seq<V>) {
    |values| == |done| && forall i :: 0 <= i < |values| ==> parse(done[i]) == Some(values[i])
  }

  /** The fields before position `start` are `done`. */
  ghost predicate Read(csv: string, start: nat, done: seq<string>)
    requires start <= |csv|
  {
    Csv(csv) == done + TextSplit.FieldsFrom(csv, IsComma, start)
  }

  lemma NextField(csv: string, start: nat, done: seq<string>)
    requires start <= |csv| && Read(csv, start, done)
    ensures var comma := TextSplit.SeparatorFrom(csv, IsComma, start);
      var field := csv[start..comma];
      && |done| < |Csv(csv)| && Csv(csv)[|done|] == field
      && (if comma == |csv| then Csv(csv) == done + [field] else Read(csv, comma + 1, done + [field]))
  {
    var comma := TextSplit.SeparatorFrom(csv, IsComma, start);
    if comma < |csv| {
      Associate(done, [csv[start..comma]], TextSplit.FieldsFrom(csv, IsComma, comma + 1));
    }
  }

  /** The loop: the values of the fields, but no more than `limit` + 1 of them; None at the first
      field that is not a number. */
  method ParseFields<V>(csv: string, parse: string -> Option<V>, limit: nat) returns (r: Option<seq<V>>)
    ensures r.None? ==> !Accepted(Csv(csv), parse)
    ensures r.Some? ==> |r.value| <= |Csv(csv)| && (|r.value| <= limit ==> |r.value| == |Csv(csv)|)
    ensures r.Some? ==> Parsed(Csv(csv)[..|r.value|], parse, r.value)
  {
    ghost var done: seq<string> := [];
    var values: seq<V> := [];
    var start := 0;
    while start <= |csv| && |values| <= limit
      invariant start <= |csv| && Read(csv, start, done)
      invariant Parsed(done, parse, values)
      decreases |csv| - start
    {
      var comma := TextSplit.SeparatorFrom(csv, IsComma, start);
      var field := csv[start..comma];
      NextField(csv, start, done);
      var value := parse(field);
      if value.None? {
        return None;
      }
      values := values + [value.value];
      done := done + [field];
      if comma == |csv| {
        break;
      }
      start := comma + 1;
    }
    Concluded(csv, start, done, limit);
    r := Some(values);
  }

  /** When the loop stops, the fields read are a prefix, and all of them if within the limit. */
  lemma Concluded(csv: string, start: nat, done: seq<string>, limit: nat)
    requires start <= |csv|
    requires Csv(csv) == done || (Read(csv, start, done) && |done| > limit)
    ensures |done| <= |Csv(csv)| && Csv(csv)[..|done|] == done
    ensures |done| <= limit ==> |done| == |Csv(csv)|
  {
  }

  /** `out` is written only when there are exactly sixteen fields and every one is a number. */
  method ParsePlacement<V>(csv: string, parse: string -> Option<V>, out: array<V>) returns (ok: bool)
    requires out.Length == ENTRIES
    modifies out
    ensures ok <==> |Csv(csv)| == ENTRIES && Accepted(Csv(csv), parse)
    ensures ok ==> Parsed(Csv(csv), parse, out[..])
    ensures !ok ==> out[..] == old(out[..])
  {
    var r := ParseFields(csv, parse, out.Length);
    if r.None? || |r.value| != out.Length {
      return false;
    }
    for i := 0 to out.Length
      invariant forall j :: 0 <= j < i ==> out[j] == r.value[j]
    {
      out[i] := r.value[i];
    }
    assert Csv(csv)[..|r.value|] == Csv(csv);
    ok := true;
  }

  /** Parsing the join of sixteen accepted comma-free fields returns their values, in order. */
  method ParseJoined<V>(tokens: seq<string>, parse: string -> Option<V>, out: array<V>) returns (ok: bool)
    requires out.Length == ENTRIES == |tokens| && Accepted(tokens, parse)
    requires forall i :: 0 <= i < |tokens| ==> TextSplit.Free(tokens[i], IsComma)
    modifies out
    ensures ok && Parsed(tokens, parse, out[..])
  {
    TextSplit.FieldsOfJoin(tokens, ',', IsComma);
    ok := ParsePlacement(TextSplit.Join(tokens, ','), parse, out);
  }

  /** A trailing comma adds an empty field, so a list that ends in one is refused by any number
      parser that refuses the empty text. */
  lemma TrailingCommaIsAField(s: string)
    ensures Csv(s + ",") == Csv(s) + [""]
  {
    TextSplit.FieldsOfAppend(s, ',', "", IsComma, 0);
    TextSplit.FieldsOfOne("", IsComma);
    assert s + [','] + "" == s + ",";
  }

  /** With the number parser of `parseNumber`, a list is accepted field by field in the grammar of
      from_chars, and a list that ends in a comma never is. */
  lemma AcceptedByGrammar<V>(csv: string, parse: string -> Option<V>, value: string -> V, outOfRange: string -> bool)
    requires forall s :: parse(s) == ParseFloatingViaStrtod(s, value, outOfRange)
    ensures Accepted(Csv(csv), parse) <==>
      forall i :: 0 <= i < |Csv(csv)| ==> IsFromCharsPattern(Csv(csv)[i]) && !outOfRange(Csv(csv)[i])
    ensures !Accepted(Csv(csv + ","), parse)
  {
    forall s: string
      ensures parse(s).Some? <==> IsFromCharsPattern(s) && !outOfRange(s)
    {
      AcceptedTexts(s, value, outOfRange);
    }
    TrailingCommaIsAField(csv);
    var fields := Csv(csv + ",");
    assert fields[|fields| - 1] == "" && parse("").None?;
  }
}
