/**
 * The pure parts of `TableManager`: the row codec that turns a row of value
 * strings into the bytes stored in the tree and back, the WHERE and join
 * parsers, the condition matcher, the field lookup, the table-name clean-up
 * of `dropTable` and the record remapping of `rebuildTable`.
 *
 * Strings are character sequences; a `value_t` holding a row is modelled by
 * its bytes as characters (its `size` is their number).
 */
module TableManager {
  import opened Bytes
  import opened TableDefs

  const NUL: char := '\0'

  /** A quote character opening a literal: `'` or `"`. */
  predicate IsQuote(c: char) {
    c == '\'' || c == '"'
  }

  /**
   * `value.substr(1, value.length() - 2)` on a value that starts with a
   * quote: the first and last characters dropped (a lone quote leaves
   * nothing); any other value is kept.
   */
  function StripQuotes(v: string): (r: string)
    ensures |v| > 0 && IsQuote(v[0]) && |v| >= 2 ==> r == v[1..|v| - 1]
    ensures |v| > 0 && IsQuote(v[0]) && |v| < 2 ==> r == []
    ensures !(|v| > 0 && IsQuote(v[0])) ==> r == v
  {
    if |v| > 0 && IsQuote(v[0]) then (if |v| >= 2 then v[1..|v| - 1] else []) else v
  }

  // ------------------------------------------------------------------
  // serializeValues / deserializeValues

  /** What `serializeValues` writes for one value: its unquoted text, "NULL" when that is empty or "NULL". */
  function StoredText(v: string): (r: string)
    ensures r != []
  {
    var s := StripQuotes(v);
    if s == "NULL" || s == [] then "NULL" else s
  }

  /** The row text: every value's stored text followed by a NUL separator. */
  function RowText(values: seq<string>): string {
    if values == [] then [] else StoredText(values[0]) + [NUL] + RowText(values[1..])
  }

  /** Appending one more value to the row text. */
  lemma {:induction false} RowTextSnoc(values: seq<string>, v: string)
    ensures RowText(values + [v]) == RowText(values) + StoredText(v) + [NUL]
    decreases |values|
  {
    if values != [] {
      assert (values + [v])[1..] == values[1..] + [v];
      RowTextSnoc(values[1..], v);
      Regroup(StoredText(values[0]) + [NUL], RowText(values[1..]), StoredText(v) + [NUL]);
    }
  }

  /** Concatenation regrouped. */
  lemma Regroup<T>(a: seq<T>, b: seq<T>, c: seq<T>)
    ensures a + (b + c) == (a + b) + c
  {
  }

  /**
   * `serializeValues`: the row text of the first `fields.size()` values
   * with one more NUL at the end; the value's size is the text's length
   * plus one.
   */
  method SerializeValues(fields: seq<FieldDef>, values: seq<string>) returns (data: string)
    requires |values| >= |fields|
    ensures data == RowText(values[..|fields|]) + [NUL]
  {
    var serialized := [];
    var i := 0;
    while i < |fields|
      invariant 0 <= i <= |fields|
      invariant serialized == RowText(values[..i])
    {
      var value := values[i];
      if |value| > 0 && (value[0] == '\'' || value[0] == '"') {
        value := if |value| >= 2 then value[1..|value| - 1] else [];
      }
      if value == "NULL" || value == [] {
        serialized := serialized + "NULL";
      } else {
        serialized := serialized + value;
      }
      serialized := serialized + [NUL];
      RowTextSnoc(values[..i], values[i]);
      assert values[..i + 1] == values[..i] + [values[i]];
      i := i + 1;
    }
    data := serialized + [NUL];
  }

  /** The first NUL at or after `pos`, or the end of the data. */
  function NulFrom(data: string, pos: nat): (e: nat)
    requires pos <= |data|
    ensures pos <= e <= |data|
    ensures e < |data| ==> data[e] == NUL
    ensures forall j | pos <= j < e :: data[j] != NUL
    decreases |data| - pos
  {
    if pos == |data| || data[pos] == NUL then pos else NulFrom(data, pos + 1)
  }

  /**
   * How `deserializeValues` shows one segment: "NULL" stays "NULL"; VARCHAR
   * comes back in single quotes, DATETIME too unless empty (then "NULL");
   * BOOL is "true" exactly for "1" and "true"; the other types as they are.
   */
  function Shown(t: FieldType, seg: string): string {
    if seg == "NULL" then "NULL"
    else
      match t
      case VARCHAR => "'" + seg + "'"
      case DATETIME => if seg == [] then "NULL" else "'" + seg + "'"
      case BOOL => if seg == "1" || seg == "true" then "true" else "false"
      case _ => seg
  }

  /** The data left from `pos` on; none once `pos` has passed the end. */
  function Rest(data: string, pos: nat): string {
    if pos <= |data| then data[pos..] else []
  }

  /**
   * What `deserializeValues` reads from the data `d` left: while fields
   * remain and data is left, the segment up to the next NUL (or the end),
   * shown as its field's type; the reading goes on past that NUL. At most
   * one value per field.
   */
  function ReadRow(fields: seq<FieldDef>, d: string): (r: seq<string>)
    ensures |r| <= |fields|
    decreases |fields|
  {
    if fields == [] || d == [] then []
    else
      var e := NulFrom(d, 0);
      [Shown(fields[0].fieldType, d[..e])] + ReadRow(fields[1..], Rest(d, e + 1))
  }

  /** The inner loop of `deserializeValues`: the characters from `start` up to the next NUL or the end. */
  method ReadSegment(data: string, start: nat) returns (current: string, pos: nat)
    requires start < |data|
    ensures start <= pos <= |data| && pos - start == NulFrom(data[start..], 0)
    ensures current == data[start..pos] && Rest(data, pos + 1) == Rest(data[start..], pos - start + 1)
  {
    current := [];
    pos := start;
    while pos < |data| && data[pos] != NUL
      invariant start <= pos <= |data|
      invariant current == data[start..pos]
      invariant forall j | start <= j < pos :: data[j] != NUL
    {
      current := current + [data[pos]];
      pos := pos + 1;
    }
    NulFromFirst(data[start..], 0, pos - start);
  }

  /** One turn of the outer loop of `deserializeValues`: the segment from `start` to `pos`, then the rest. */
  lemma ReadRowStep(fields: seq<FieldDef>, i: nat, data: string, start: nat, pos: nat, current: string, values: seq<string>)
    requires i < |fields| && start < |data| && start <= pos <= |data|
    requires pos - start == NulFrom(data[start..], 0) && current == data[start..pos]
    requires Rest(data, pos + 1) == Rest(data[start..], pos - start + 1)
    requires values + ReadRow(fields[i..], Rest(data, start)) == ReadRow(fields, data)
    ensures (values + [Shown(fields[i].fieldType, current)]) + ReadRow(fields[i + 1..], Rest(data, pos + 1)) == ReadRow(fields, data)
  {
    assert fields[i..][1..] == fields[i + 1..];
    ReadRowHead(fields[i..], data, start, pos, current);
    Regroup(values, [Shown(fields[i].fieldType, current)], ReadRow(fields[i + 1..], Rest(data, pos + 1)));
  }


  /** The first value read from `start` on is the segment up to `pos`; the reading goes on past it. */
  lemma ReadRowHead(fields: seq<FieldDef>, data: string, start: nat, pos: nat, current: string)
    requires fields != [] && start < |data| && start <= pos <= |data|
    requires pos - start == NulFrom(data[start..], 0) && current == data[start..pos]
    requires Rest(data, pos + 1) == Rest(data[start..], pos - start + 1)
    ensures ReadRow(fields, Rest(data, start)) == [Shown(fields[0].fieldType, current)] + ReadRow(fields[1..], Rest(data, pos + 1))
  {
    assert Rest(data, start) == data[start..];
    assert data[start..][..pos - start] == current;
  }

  /** `deserializeValues`: the values read from the whole data. */
  method DeserializeValues(fields: seq<FieldDef>, data: string) returns (values: seq<string>)
    ensures values == ReadRow(fields, data)
  {
    values := [];
    var pos: nat := 0;
    var i := 0;
    assert Rest(data, 0) == data;
    while i < |fields| && pos < |data|
      invariant 0 <= i <= |fields|
      invariant values + ReadRow(fields[i..], Rest(data, pos)) == ReadRow(fields, data)
      decreases |fields| - i
    {
      var start := pos;
      var current;
      current, pos := ReadSegment(data, pos);
      ReadRowStep(fields, i, data, start, pos, current, values);
      pos := pos + 1;
      var shown := Shown(fields[i].fieldType, current);
      values := values + [shown];
      i := i + 1;
    }
    assert ReadRow(fields[i..], Rest(data, pos)) == [];
  }

  /** Each value's stored text, shown as its field's type. */
  function ShownRow(fields: seq<FieldDef>, values: seq<string>): (r: seq<string>)
    requires |values| == |fields|
    ensures |r| == |fields|
  {
    if fields == [] then [] else [Shown(fields[0].fieldType, StoredText(values[0]))] + ShownRow(fields[1..], values[1..])
  }

  /**
   * Reading back a row text: each value comes back as its stored text shown
   * as its field's type, whatever follows the row text.
   */
  lemma {:induction false} ReadRowText(fields: seq<FieldDef>, values: seq<string>, after: string)
    requires |values| == |fields|
    requires forall k | 0 <= k < |values| :: NUL !in StoredText(values[k])
    ensures ReadRow(fields, RowText(values) + after) == ShownRow(fields, values)
    decreases |values|
  {
    if values != [] {
      var seg := StoredText(values[0]);
      var rest := RowText(values[1..]) + after;
      assert RowText(values) + after == seg + ([NUL] + rest);
      ReadRowOfSegment(fields, seg, rest);
      forall k | 0 <= k < |values[1..]|
        ensures NUL !in StoredText(values[1..][k])
      {
        assert values[1..][k] == values[k + 1];
      }
      ReadRowText(fields[1..], values[1..], after);
    }
  }

  /** Reading `seg + NUL + rest`: the first value is `seg` shown, the others are read from `rest`. */
  lemma ReadRowOfSegment(fields: seq<FieldDef>, seg: string, rest: string)
    requires fields != [] && NUL !in seg
    ensures ReadRow(fields, seg + ([NUL] + rest)) == [Shown(fields[0].fieldType, seg)] + ReadRow(fields[1..], rest)
  {
    SegmentFirst(seg, rest);
  }

  /** In `seg + NUL + rest`, the first segment is `seg` and the reading goes on at `rest`. */
  lemma SegmentFirst(seg: string, rest: string)
    requires NUL !in seg
    ensures var d := seg + ([NUL] + rest);
      d != [] && NulFrom(d, 0) == |seg| && d[..|seg|] == seg && Rest(d, |seg| + 1) == rest
  {
    var d := seg + ([NUL] + rest);
    assert d[|seg|] == NUL;
    NulFromFirst(d, 0, |seg|);
    assert d[|seg| + 1..] == rest;
  }

  /** The first NUL from `pos` is the one at `e` when none lies before it, or the end when there is none. */
  lemma NulFromFirst(data: string, pos: nat, e: nat)
    requires pos <= e <= |data| && (e < |data| ==> data[e] == NUL)
    requires forall j | pos <= j < e :: data[j] != NUL
    ensures NulFrom(data, pos) == e
  {
  }

  /**
   * The values a row keeps through `serializeValues` and
   * `deserializeValues`: "NULL" for any type; for INT, FLOAT and DOUBLE a
   * non-empty text that does not start with a quote; for VARCHAR and
   * DATETIME a text in single quotes whose inside is neither empty nor
   * "NULL"; for BOOL "true" or "false"; and no NUL anywhere.
   */
  predicate Canonical(t: FieldType, v: string) {
    NUL !in v &&
    (v == "NULL" ||
     match t
     case VARCHAR | DATETIME =>
       |v| >= 2 && v[0] == '\'' && v[|v| - 1] == '\'' && v[1..|v| - 1] != [] && v[1..|v| - 1] != "NULL"
     case BOOL => v == "true" || v == "false"
     case _ => v != [] && !IsQuote(v[0]))
  }

  /** A canonical value is shown back as itself. */
  lemma CanonicalShownBack(t: FieldType, v: string)
    requires Canonical(t, v)
    ensures NUL !in StoredText(v) && Shown(t, StoredText(v)) == v
  {
    if v != "NULL" && (t == VARCHAR || t == DATETIME) {
      var inner := v[1..|v| - 1];
      assert v == "'" + inner + "'";
    }
  }

  /**
   * Round trip: deserializing a serialized row of canonical values gives
   * the values back.
   */
  lemma SerializeRoundTrip(fields: seq<FieldDef>, values: seq<string>)
    requires |values| == |fields|
    requires forall k | 0 <= k < |fields| :: Canonical(fields[k].fieldType, values[k])
    ensures ReadRow(fields, RowText(values) + [NUL]) == values
  {
    forall k | 0 <= k < |fields|
      ensures NUL !in StoredText(values[k])
    {
      CanonicalShownBack(fields[k].fieldType, values[k]);
    }
    ReadRowText(fields, values, [NUL]);
    CanonicalRowShownBack(fields, values);
  }

  /** A row of canonical values is shown back as itself. */
  lemma {:induction false} CanonicalRowShownBack(fields: seq<FieldDef>, values: seq<string>)
    requires |values| == |fields|
    requires forall k | 0 <= k < |fields| :: Canonical(fields[k].fieldType, values[k])
    ensures ShownRow(fields, values) == values
    decreases |fields|
  {
    if fields != [] {
      CanonicalShownBack(fields[0].fieldType, values[0]);
      assert forall k | 0 <= k < |fields| - 1 :: fields[1..][k] == fields[k + 1] && values[1..][k] == values[k + 1];
      CanonicalRowShownBack(fields[1..], values[1..]);
      assert values == [values[0]] + values[1..];
    }
  }

  // ------------------------------------------------------------------
  // parseWhereClause

  /** The characters `>>` skips around words: space, tab, newline, vertical tab, form feed and carriage return. */
  predicate IsSpace(c: char) {
    c == ' ' || c == '\t' || c == '\n' || c == '\r' || c as int == 11 || c as int == 12
  }

  /** The end of the word starting at `i`: the next space or the end of the text. */
  function WordEnd(s: string, i: nat): (e: nat)
    requires i <= |s|
    ensures i <= e <= |s| && (e < |s| ==> IsSpace(s[e]))
    ensures forall j | i <= j < e :: !IsSpace(s[j])
    decreases |s| - i
  {
    if i == |s| || IsSpace(s[i]) then i else WordEnd(s, i + 1)
  }

  /** The words `>>` reads from position `i` on: the maximal runs of non-space characters, in order. */
  function WordsFrom(s: string, i: nat): (ws: seq<string>)
    requires i <= |s|
    ensures forall w | w in ws :: w != [] && forall c | c in w :: !IsSpace(c)
    decreases |s| - i
  {
    if i == |s| then []
    else if IsSpace(s[i]) then WordsFrom(s, i + 1)
    else
      var e := WordEnd(s, i);
      [s[i..e]] + WordsFrom(s, e)
  }

  /** The words of a text, as an `istringstream` reads them. */
  function Words(s: string): seq<string> {
    WordsFrom(s, 0)
  }

  /** A condition of a WHERE clause: a field, an operator and a value. */
  datatype Condition = Condition(field: string, op: string, value: string)

  /**
   * The conditions read from the words of a WHERE clause: triples of
   * field, operator and value (a quoted value loses its quotes), joined by
   * "AND"; an incomplete triple is dropped, and any other word in the place
   * of "AND" ends the clause.
   */
  function Conditions(ws: seq<string>): seq<Condition>
    decreases |ws|
  {
    if |ws| < 3 then []
    else [Condition(ws[0], ws[1], StripQuotes(ws[2]))] + (if |ws| > 3 && ws[3] == "AND" then Conditions(ws[4..]) else [])
  }

  /** `parseWhereClause`: the conditions of the clause's words; none for an empty clause. */
  method ParseWhereClause(clause: string) returns (conds: seq<Condition>)
    ensures conds == Conditions(Words(clause))
    ensures clause == [] ==> conds == []
  {
    conds := [];
    if clause == [] {
      assert Words(clause) == [];
      return;
    }
    var ws := Words(clause);
    var i := 0;
    while i < |ws|
      invariant 0 <= i <= |ws|
      invariant conds + Conditions(ws[i..]) == Conditions(ws)
    {
      if i + 3 > |ws| {
        assert Conditions(ws[i..]) == [];
        break;
      }
      var value := ws[i + 2];
      assert value in ws;
      if value[0] == '"' || value[0] == '\'' {
        value := if |value| >= 2 then value[1..|value| - 1] else [];
      }
      assert value == StripQuotes(ws[i + 2]);
      WhereStep(ws, i, conds, Conditions(ws));
      conds := conds + [Condition(ws[i], ws[i + 1], value)];
      if i + 3 == |ws| || ws[i + 3] != "AND" {
        break;
      }
      i := i + 4;
    }
    assert i == |ws| ==> ws[i..] == [];
  }

  /**
   * One turn of the loop of `parseWhereClause`: the condition read at `i`
   * is the next one, and the conditions go on after "AND" or end there.
   */
  lemma WhereStep(ws: seq<string>, i: nat, conds: seq<Condition>, all: seq<Condition>)
    requires i + 3 <= |ws| && conds + Conditions(ws[i..]) == all
    ensures var c := Condition(ws[i], ws[i + 1], StripQuotes(ws[i + 2]));
      if i + 3 < |ws| && ws[i + 3] == "AND" then (conds + [c]) + Conditions(ws[i + 4..]) == all
      else conds + [c] == all
  {
    var c := Condition(ws[i], ws[i + 1], StripQuotes(ws[i + 2]));
    ConditionsHead(ws, i);
    if i + 3 < |ws| && ws[i + 3] == "AND" {
      var t := Conditions(ws[i + 4..]);
      assert conds + ([c] + t) == (conds + [c]) + t;
    } else {
      assert [c] + [] == [c];
    }
  }

  /** The first condition of the words from `i` on, and where the rest starts. */
  lemma ConditionsHead(ws: seq<string>, i: nat)
    requires i + 3 <= |ws|
    ensures Conditions(ws[i..]) == [Condition(ws[i], ws[i + 1], StripQuotes(ws[i + 2]))]
      + (if i + 3 < |ws| && ws[i + 3] == "AND" then Conditions(ws[i + 4..]) else [])
  {
    if i + 3 < |ws| {
      assert ws[i..][4..] == ws[i + 4..];
    }
  }

  /** The words of conditions written as "field op value AND field op value ...". */
  function AndChain(conds: seq<Condition>): seq<string> {
    if conds == [] then []
    else [conds[0].field, conds[0].op, conds[0].value] + (if |conds| > 1 then ["AND"] + AndChain(conds[1..]) else [])
  }

  /** Round trip: conditions whose values are not quoted are read back from their AND chain. */
  lemma {:induction false} ConditionsOfAndChain(conds: seq<Condition>)
    requires forall c | c in conds :: c.value == [] || !IsQuote(c.value[0])
    ensures Conditions(AndChain(conds)) == conds
    decreases |conds|
  {
    if conds != [] {
      var c := conds[0];
      var ws := AndChain(conds);
      assert ws[..3] == [c.field, c.op, c.value];
      if |conds| > 1 {
        assert ws[4..] == AndChain(conds[1..]);
        ConditionsOfAndChain(conds[1..]);
      }
      assert conds == [c] + conds[1..];
    }
  }

  // ------------------------------------------------------------------
  // getFieldIndex and matchConditions

  /** The index of the first field named `name`, or -1 when no field is. */
  function FieldIndex(fields: seq<FieldDef>, name: string): (r: int)
    ensures -1 <= r < |fields|
    ensures r == -1 <==> forall j | 0 <= j < |fields| :: fields[j].name != name
    ensures r >= 0 ==> fields[r].name == name && forall j | 0 <= j < r :: fields[j].name != name
  {
    if fields == [] then -1
    else if fields[0].name == name then 0
    else
      var r := FieldIndex(fields[1..], name);
      if r == -1 then -1 else r + 1
  }

  /** `getFieldIndex`: the first field with the name, or -1. */
  method GetFieldIndex(fields: seq<FieldDef>, name: string) returns (r: int)
    ensures r == FieldIndex(fields, name)
  {
    var i := 0;
    while i < |fields|
      invariant 0 <= i <= |fields|
      invariant forall j | 0 <= j < i :: fields[j].name != name
    {
      if fields[i].name == name {
        return i;
      }
      i := i + 1;
    }
    return -1;
  }

  /**
   * `std::string`'s `<`: lexicographic by character code, a proper prefix
   * first.
   */
  predicate StrLess(a: string, b: string)
    decreases |a|
  {
    if a == [] then b != []
    else if b == [] then false
    else if a[0] != b[0] then a[0] < b[0]
    else StrLess(a[1..], b[1..])
  }

  /** The operators: "=", ">", "<", ">=", "<=" and "!=" from how the sides compare; any other operator never holds. */
  predicate Holds(op: string, less: bool, greater: bool, equal: bool) {
    if op == "=" then equal
    else if op == ">" then greater
    else if op == "<" then less
    else if op == ">=" then !less
    else if op == "<=" then !greater
    else if op == "!=" then !equal
    else false
  }

  /**
   * A condition holds for a record when its field exists within the record
   * and the comparison holds: as integers (read by `toInt`) for an INT
   * field, as strings otherwise.
   */
  predicate CondHolds(record: seq<string>, fields: seq<FieldDef>, c: Condition, toInt: string -> int) {
    var idx := FieldIndex(fields, c.field);
    0 <= idx < |record| &&
    if fields[idx].fieldType == INT then
      var a, b := toInt(record[idx]), toInt(c.value);
      Holds(c.op, a < b, a > b, a == b)
    else
      Holds(c.op, StrLess(record[idx], c.value), StrLess(c.value, record[idx]), record[idx] == c.value)
  }

  /**
   * `matchConditions`: true exactly when every condition holds (so for no
   * condition at all, and never when a condition names an unknown field).
   */
  method MatchConditions(record: seq<string>, fields: seq<FieldDef>, conds: seq<Condition>, toInt: string -> int)
    returns (r: bool)
    ensures r <==> forall k | 0 <= k < |conds| :: CondHolds(record, fields, conds[k], toInt)
  {
    if conds == [] {
      return true;
    }
    var k := 0;
    while k < |conds|
      invariant 0 <= k <= |conds|
      invariant forall j | 0 <= j < k :: CondHolds(record, fields, conds[j], toInt)
    {
      var cond := conds[k];
      var idx := GetFieldIndex(fields, cond.field);
      if idx == -1 || idx >= |record| {
        return false;
      }
      var value := record[idx];
      var match_;
      if fields[idx].fieldType == INT {
        var recordVal, condVal := toInt(value), toInt(cond.value);
        match_ := Holds(cond.op, recordVal < condVal, recordVal > condVal, recordVal == condVal);
      } else {
        match_ := Holds(cond.op, StrLess(value, cond.value), StrLess(cond.value, value), value == cond.value);
      }
      if !match_ {
        return false;
      }
      k := k + 1;
    }
    return true;
  }

  // ------------------------------------------------------------------
  // parseJoinCondition and the table-name clean-up of dropTable

  /** `find(c)`: the first index holding `c`. */
  function Find(s: string, c: char): (r: Option<nat>)
    ensures r.None? <==> c !in s
    ensures r.Some? ==> r.value < |s| && s[r.value] == c && c !in s[..r.value]
  {
    if s == [] then None
    else if s[0] == c then Some(0)
    else
      match Find(s[1..], c)
      case None => None
      case Some(i) =>
        assert s[..i + 1] == [s[0]] + s[1..][..i];
        Some(i + 1)
  }

  /** `find_first_not_of(cs)`: the first index holding a character outside `cs`. */
  function FirstNotOf(s: string, cs: set<char>): (r: Option<nat>)
    ensures r.None? <==> forall j | 0 <= j < |s| :: s[j] in cs
    ensures r.Some? ==> r.value < |s| && s[r.value] !in cs && forall j | 0 <= j < r.value :: s[j] in cs
  {
    if s == [] then None
    else if s[0] !in cs then Some(0)
    else
      match FirstNotOf(s[1..], cs)
      case None => None
      case Some(i) => Some(i + 1)
  }

  /** `find_last_not_of(cs)`: the last index holding a character outside `cs`. */
  function LastNotOf(s: string, cs: set<char>): (r: Option<nat>)
    ensures r.None? <==> forall j | 0 <= j < |s| :: s[j] in cs
    ensures r.Some? ==> r.value < |s| && s[r.value] !in cs && forall j | r.value < j < |s| :: s[j] in cs
  {
    if s == [] then None
    else if s[|s| - 1] !in cs then Some(|s| - 1)
    else LastNotOf(s[..|s| - 1], cs)
  }

  const Blanks: set<char> := {' ', '\t'}

  /**
   * One side of a join condition trimmed of spaces and tabs at both ends;
   * None for a side with nothing else, where `substr` of the `npos` that
   * `find_first_not_of` returns throws `out_of_range`.
   */
  function TrimBlanks(s: string): (r: Option<string>)
    ensures r.None? <==> forall j | 0 <= j < |s| :: s[j] in Blanks
  {
    match FirstNotOf(s, Blanks)
    case None => None
    case Some(b) =>
      var t := s[b..];
      match LastNotOf(t, Blanks)
      case None => None
      case Some(e) => Some(t[..e + 1])
  }

  /** The text after the first '.', or nothing without one. */
  function AfterDot(t: string): string {
    match Find(t, '.')
    case None => []
    case Some(d) => t[d + 1..]
  }

  /** The two field names of a join condition. */
  datatype JoinCondition = JoinCondition(table1Field: string, table2Field: string)

  /**
   * `parseJoinCondition`: two empty names without '='; otherwise the text
   * after the first '.' of each side of the first '=', trimmed (empty for a
   * side without '.'); None where a side is blank and the trimming throws.
   */
  function ParseJoinCondition(cond: string): Option<JoinCondition> {
    match Find(cond, '=')
    case None => Some(JoinCondition([], []))
    case Some(eq) =>
      var left := TrimBlanks(cond[..eq]);
      var right := TrimBlanks(cond[eq + 1..]);
      if left.None? || right.None? then None
      else Some(JoinCondition(AfterDot(left.value), AfterDot(right.value)))
  }

  /** Without '=' the parse gives two empty names. */
  lemma ParseJoinWithoutEquals(cond: string)
    requires '=' !in cond
    ensures ParseJoinCondition(cond) == Some(JoinCondition([], []))
  {
  }

  /**
   * With its first '=' at `eq`, the parse fails exactly when the text before
   * or the text after it is all blanks.
   */
  lemma ParseJoinFails(cond: string, eq: nat)
    requires eq < |cond| && cond[eq] == '=' && '=' !in cond[..eq]
    ensures ParseJoinCondition(cond).None? <==>
      (forall j | 0 <= j < eq :: cond[j] in Blanks) || (forall j | eq < j < |cond| :: cond[j] in Blanks)
  {
    FindFirst(cond[..eq], '=', cond[eq..]);
    assert cond[..eq] + cond[eq..] == cond;
    var l, r := cond[..eq], cond[eq + 1..];
    assert (forall j | 0 <= j < |l| :: l[j] in Blanks) <==> (forall j | 0 <= j < eq :: cond[j] in Blanks);
    assert forall j | eq < j < |cond| :: cond[j] == r[j - eq - 1];
    assert (forall j | 0 <= j < |r| :: r[j] in Blanks) <==> (forall j | eq < j < |cond| :: cond[j] in Blanks) by {
      if forall j | eq < j < |cond| :: cond[j] in Blanks {
        forall j | 0 <= j < |r| ensures r[j] in Blanks {
          assert r[j] == cond[j + eq + 1];
        }
      }
    }
  }

  /** Trimming a text that has no blank at either end leaves it, whatever blanks surround it. */
  lemma TrimBlanksOf(pre: string, t: string, suf: string)
    requires t != [] && t[0] !in Blanks && t[|t| - 1] !in Blanks
    requires forall j | 0 <= j < |pre| :: pre[j] in Blanks
    requires forall j | 0 <= j < |suf| :: suf[j] in Blanks
    ensures TrimBlanks(pre + t + suf) == Some(t)
  {
    var s := pre + t + suf;
    assert s[|pre|] == t[0];
    var b := FirstNotOf(s, Blanks).value;
    assert b == |pre|;
    var u := s[b..];
    assert u == t + suf;
    assert u[|t| - 1] == t[|t| - 1];
    var e := LastNotOf(u, Blanks).value;
    assert e == |t| - 1;
    assert u[..e + 1] == t;
  }

  /**
   * Round trip: "t1.f1 = t2.f2", with table names free of '.' and blanks at
   * their start, and field names free of blanks at their end (and '=' only
   * after the first one), gives the fields f1 and f2.
   */
  lemma ParseJoinOfQualifiedFields(t1: string, f1: string, t2: string, f2: string)
    requires t1 != [] && t1[0] !in Blanks && '.' !in t1 && t2 != [] && t2[0] !in Blanks && '.' !in t2
    requires f1 != [] && f1[|f1| - 1] !in Blanks && f2 != [] && f2[|f2| - 1] !in Blanks
    requires '=' !in t1 && '=' !in f1
    ensures ParseJoinCondition(t1 + "." + f1 + " = " + t2 + "." + f2) == Some(JoinCondition(f1, f2))
  {
    QualifiedSide(t1, f1);
    QualifiedSide(t2, f2);
    QualifiedWithoutEquals(t1, f1);
    ParseJoinOfSides(t1 + "." + f1, t2 + "." + f2);
    AppendRight(t1 + "." + f1 + " = ", t2, f2);
    AfterDotOf(t1, f1);
    AfterDotOf(t2, f2);
  }

  /** "t.f", with no blank at its ends, survives trimming with a blank on either side. */
  lemma QualifiedSide(t: string, f: string)
    requires t != [] && t[0] !in Blanks && f != [] && f[|f| - 1] !in Blanks
    ensures TrimBlanks(t + "." + f + [' ']) == Some(t + "." + f)
    ensures TrimBlanks([' '] + (t + "." + f)) == Some(t + "." + f)
  {
    var side := t + "." + f;
    assert side[0] == t[0] && side[|side| - 1] == f[|f| - 1];
    TrimBlanksOf([], side, [' ']);
    assert [] + side + [' '] == side + [' '];
    TrimBlanksOf([' '], side, []);
    assert [' '] + side + [] == [' '] + side;
  }

  /** "t.f" has no '=' when neither `t` nor `f` has one. */
  lemma QualifiedWithoutEquals(t: string, f: string)
    requires '=' !in t && '=' !in f
    ensures '=' !in t + "." + f
  {
    var side := t + "." + f;
    forall j | 0 <= j < |side| ensures side[j] != '=' {
      if j < |t| {
        assert side[j] == t[j];
      } else if j > |t| {
        assert side[j] == f[j - |t| - 1];
      }
    }
  }

  /** "x" followed by "t.f" is "x" + "t" + "." + "f". */
  lemma AppendRight(x: string, t: string, f: string)
    ensures x + t + "." + f == x + (t + "." + f)
  {
  }

  /** A condition "left = right", with no '=' on the left, splits into its two sides. */
  lemma ParseJoinOfSides(left: string, right: string)
    requires '=' !in left
    requires TrimBlanks(left + [' ']).Some? && TrimBlanks([' '] + right).Some?
    ensures ParseJoinCondition(left + " = " + right)
      == Some(JoinCondition(AfterDot(TrimBlanks(left + [' ']).value), AfterDot(TrimBlanks([' '] + right).value)))
  {
    var cond := left + " = " + right;
    SidesOfEquals(left, right);
    FindFirst(left + [' '], '=', ['='] + ([' '] + right));
    ParseJoinAt(cond, |left| + 1);
  }

  /** "left = right" is `left` and a blank, then '=', then a blank and `right`. */
  lemma SidesOfEquals(left: string, right: string)
    ensures var cond := left + " = " + right;
      cond == (left + [' ']) + (['='] + ([' '] + right)) &&
      cond[..|left| + 1] == left + [' '] && cond[|left| + 2..] == [' '] + right
  {
    var cond := left + " = " + right;
    assert cond == (left + [' ']) + (['='] + ([' '] + right));
  }

  /** The parse of a condition whose first '=' is at `eq` trims the text on either side of it. */
  lemma ParseJoinAt(cond: string, eq: nat)
    requires Find(cond, '=') == Some(eq)
    ensures eq < |cond|
    ensures var l, r := TrimBlanks(cond[..eq]), TrimBlanks(cond[eq + 1..]);
      ParseJoinCondition(cond) == if l.None? || r.None? then None else Some(JoinCondition(AfterDot(l.value), AfterDot(r.value)))
  {
  }

  /** `find` lands on the first character after a prefix free of it, when that character is the one sought. */
  lemma FindFirst(pre: string, c: char, rest: string)
    requires c !in pre && rest != [] && rest[0] == c
    ensures Find(pre + rest, c) == Some(|pre|)
  {
    var s := pre + rest;
    assert s[..|pre|] == pre && s[|pre|] == c;
    var r := Find(s, c);
    assert r.Some?;
  }

  /** The text after the first '.' of "t.f", for a `t` without '.', is `f`. */
  lemma AfterDotOf(t: string, f: string)
    requires '.' !in t
    ensures AfterDot(t + "." + f) == f
  {
    FindFirst(t, '.', ['.'] + f);
    assert t + "." + f == t + (['.'] + f);
    assert (t + (['.'] + f))[|t| + 1..] == f;
  }

  const NameTrailers: set<char> := {' ', ';'}

  /**
   * The table-name clean-up of `dropTable`: trailing spaces and ';' cut,
   * then leading spaces; None for a name of nothing else, where the second
   * `substr` is given `npos` and throws `out_of_range`.
   */
  function CleanTableName(s: string): Option<string> {
    var e := LastNotOf(s, NameTrailers);
    var t := if e.Some? then s[..e.value + 1] else [];
    match FirstNotOf(t, {' '})
    case None => None
    case Some(b) => Some(t[b..])
  }

  /** The clean-up fails exactly on a name made of spaces and ';' alone. */
  lemma CleanTableNameFails(s: string)
    ensures CleanTableName(s).None? <==> forall j | 0 <= j < |s| :: s[j] in NameTrailers
  {
    var e := LastNotOf(s, NameTrailers);
    if e.Some? {
      var t := s[..e.value + 1];
      assert t[e.value] !in NameTrailers;
      assert FirstNotOf(t, {' '}).Some?;
    }
  }

  /**
   * A name with no space at its start and no space or ';' at its end comes
   * out of the clean-up unchanged, whatever spaces precede it and whatever
   * spaces and ';' follow it.
   */
  lemma CleanTableNameOf(pre: string, name: string, suf: string)
    requires name != [] && name[0] != ' ' && name[|name| - 1] !in NameTrailers
    requires forall j | 0 <= j < |pre| :: pre[j] == ' '
    requires forall j | 0 <= j < |suf| :: suf[j] in NameTrailers
    ensures CleanTableName(pre + name + suf) == Some(name)
  {
    var s := pre + name + suf;
    var k := |pre| + |name| - 1;
    assert s[k] == name[|name| - 1];
    assert forall j | k < j < |s| :: s[j] == suf[j - |pre| - |name|];
    var e := LastNotOf(s, NameTrailers).value;
    assert e == k;
    var t := s[..e + 1];
    assert t == pre + name;
    assert t[|pre|] == name[0];
    var b := FirstNotOf(t, {' '}).value;
    assert b == |pre|;
    assert t[b..] == name;
  }

  // ------------------------------------------------------------------
  // the record remapping of rebuildTable

  /** A new field's starting value: its default, or "NULL" without one. */
  function DefaultCell(fd: FieldDef): (r: string)
    ensures r != []
    ensures fd.defaultValue != [] ==> r == fd.defaultValue
  {
    if fd.defaultValue == [] then "NULL" else fd.defaultValue
  }

  /** An old field lands on a new field of the same name, or on the new name of the renamed field. */
  predicate Lands(oldField: FieldDef, newField: FieldDef, oldName: string, newName: string) {
    newField.name == oldField.name || (oldName != [] && oldField.name == oldName && newField.name == newName)
  }

  /** The first new field an old field lands on. */
  function TargetOf(oldField: FieldDef, newFields: seq<FieldDef>, oldName: string, newName: string): (r: Option<nat>)
    ensures r.None? <==> forall j | 0 <= j < |newFields| :: !Lands(oldField, newFields[j], oldName, newName)
    ensures r.Some? ==> (r.value < |newFields| && Lands(oldField, newFields[r.value], oldName, newName)
                         && forall j | 0 <= j < r.value :: !Lands(oldField, newFields[j], oldName, newName))
  {
    if newFields == [] then None
    else if Lands(oldField, newFields[0], oldName, newName) then Some(0)
    else
      match TargetOf(oldField, newFields[1..], oldName, newName)
      case None => None
      case Some(j) => Some(j + 1)
  }

  /** The new field each old field lands on, in the order of the old fields. */
  function Targets(oldFields: seq<FieldDef>, newFields: seq<FieldDef>, oldName: string, newName: string)
    : (ts: seq<Option<nat>>)
    ensures |ts| == |oldFields|
    ensures forall i | 0 <= i < |ts| :: ts[i] == TargetOf(oldFields[i], newFields, oldName, newName)
  {
    seq(|oldFields|, i requires 0 <= i < |oldFields| => TargetOf(oldFields[i], newFields, oldName, newName))
  }

  /** The starting values of the new fields. */
  function Defaults(newFields: seq<FieldDef>): (d: seq<string>)
    ensures |d| == |newFields| && forall j | 0 <= j < |d| :: d[j] == DefaultCell(newFields[j])
  {
    seq(|newFields|, j requires 0 <= j < |newFields| => DefaultCell(newFields[j]))
  }

  /** `cells` after the value of each old field `i` has been written at `ts[i]`, in order. */
  function Fill(record: seq<string>, ts: seq<Option<nat>>, cells: seq<string>): (r: seq<string>)
    requires |record| >= |ts|
    ensures |r| == |cells|
  {
    if ts == [] then cells
    else
      var n := |ts| - 1;
      var r := Fill(record, ts[..n], cells);
      if ts[n].Some? && ts[n].value < |r| then r[ts[n].value := record[n]] else r
  }

  /** The last position of `ts` holding `j`. */
  function LastAt(ts: seq<Option<nat>>, j: nat): (r: Option<nat>)
    ensures r.None? <==> forall i | 0 <= i < |ts| :: ts[i] != Some(j)
    ensures r.Some? ==> (r.value < |ts| && ts[r.value] == Some(j) && forall i | r.value < i < |ts| :: ts[i] != Some(j))
  {
    if ts == [] then None
    else if ts[|ts| - 1] == Some(j) then Some(|ts| - 1)
    else LastAt(ts[..|ts| - 1], j)
  }

  /** A filled cell holds the value written last at it, or its starting value. */
  lemma {:induction false} FillCell(record: seq<string>, ts: seq<Option<nat>>, cells: seq<string>, j: nat)
    requires |record| >= |ts| && j < |cells|
    ensures Fill(record, ts, cells)[j] == match LastAt(ts, j) case None => cells[j] case Some(i) => record[i]
    decreases |ts|
  {
    if ts != [] {
      FillCell(record, ts[..|ts| - 1], cells, j);
    }
  }

  /** The new record after the old fields have been copied over the defaults, in order. */
  function Remapped(record: seq<string>, oldFields: seq<FieldDef>, newFields: seq<FieldDef>, oldName: string, newName: string)
    : (r: seq<string>)
    requires |record| >= |oldFields|
    ensures |r| == |newFields|
  {
    Fill(record, Targets(oldFields, newFields, oldName, newName), Defaults(newFields))
  }

  /** The remapping of one record when `rebuildTable` copies a table into its new layout. */
  method RemapRecord(record: seq<string>, oldFields: seq<FieldDef>, newFields: seq<FieldDef>, oldName: string, newName: string)
    returns (newRecord: seq<string>)
    requires |record| >= |oldFields|
    ensures newRecord == Remapped(record, oldFields, newFields, oldName, newName)
  {
    newRecord := seq(|newFields|, _ => "");
    var j := 0;
    while j < |newFields|
      invariant 0 <= j <= |newFields| && |newRecord| == |newFields|
      invariant forall k | 0 <= k < j :: newRecord[k] == DefaultCell(newFields[k])
    {
      newRecord := newRecord[j := DefaultCell(newFields[j])];
      j := j + 1;
    }
    ghost var cells := newRecord;
    assert cells == Defaults(newFields);
    ghost var ts := Targets(oldFields, newFields, oldName, newName);
    var i := 0;
    while i < |oldFields|
      invariant 0 <= i <= |oldFields|
      invariant newRecord == Fill(record, ts[..i], cells)
    {
      j := FindTarget(oldFields[i], newFields, oldName, newName);
      FillStep(record, ts, cells, i);
      if j < |newFields| {
        newRecord := newRecord[j := record[i]];
      }
      i := i + 1;
    }
    assert ts[..i] == ts;
  }

  /** The search of the new fields for the one an old field lands on: its index, or the number of new fields. */
  method FindTarget(oldField: FieldDef, newFields: seq<FieldDef>, oldName: string, newName: string) returns (j: nat)
    ensures TargetOf(oldField, newFields, oldName, newName) == if j < |newFields| then Some(j) else None
  {
    j := 0;
    while j < |newFields| && !Lands(oldField, newFields[j], oldName, newName)
      invariant 0 <= j <= |newFields|
      invariant forall k | 0 <= k < j :: !Lands(oldField, newFields[k], oldName, newName)
    {
      j := j + 1;
    }
  }

  /** One more old field written into the filled cells. */
  lemma FillStep(record: seq<string>, ts: seq<Option<nat>>, cells: seq<string>, i: nat)
    requires |record| >= |ts| && i < |ts|
    ensures Fill(record, ts[..i + 1], cells)
      == var r := Fill(record, ts[..i], cells);
         if ts[i].Some? && ts[i].value < |r| then r[ts[i].value := record[i]] else r
  {
    assert ts[..i + 1][..i] == ts[..i];
  }

  /** A position holding `j` with none after it is the last one. */
  lemma LastAtIs(ts: seq<Option<nat>>, j: nat, i: nat)
    requires i < |ts| && ts[i] == Some(j) && forall i' | i < i' < |ts| :: ts[i'] != Some(j)
    ensures LastAt(ts, j) == Some(i)
  {
  }

  /**
   * Each new cell holds the value of the last old field landing on it, or
   * its default ("NULL" when it has none) when no old field does.
   */
  lemma RemappedCell(record: seq<string>, oldFields: seq<FieldDef>, newFields: seq<FieldDef>,
                     oldName: string, newName: string, j: nat)
    requires |record| >= |oldFields| && j < |newFields|
    ensures (forall i | 0 <= i < |oldFields| :: TargetOf(oldFields[i], newFields, oldName, newName) != Some(j))
      ==> Remapped(record, oldFields, newFields, oldName, newName)[j] == DefaultCell(newFields[j])
    ensures forall i | 0 <= i < |oldFields| && TargetOf(oldFields[i], newFields, oldName, newName) == Some(j)
        && (forall i' | i < i' < |oldFields| :: TargetOf(oldFields[i'], newFields, oldName, newName) != Some(j))
      :: Remapped(record, oldFields, newFields, oldName, newName)[j] == record[i]
  {
    var ts := Targets(oldFields, newFields, oldName, newName);
    RemappedCellIsLast(record, oldFields, newFields, oldName, newName, j);
    if forall i | 0 <= i < |oldFields| :: TargetOf(oldFields[i], newFields, oldName, newName) != Some(j) {
      assert forall i | 0 <= i < |ts| :: ts[i] != Some(j);
    }
    forall i | 0 <= i < |oldFields| && TargetOf(oldFields[i], newFields, oldName, newName) == Some(j)
        && (forall i' | i < i' < |oldFields| :: TargetOf(oldFields[i'], newFields, oldName, newName) != Some(j))
      ensures Remapped(record, oldFields, newFields, oldName, newName)[j] == record[i]
    {
      assert forall i' | i < i' < |ts| :: ts[i'] != Some(j);
      LastAtIs(ts, j, i);
    }
  }

  /** A new cell holds the value of the last old field whose target it is, or its default. */
  lemma RemappedCellIsLast(record: seq<string>, oldFields: seq<FieldDef>, newFields: seq<FieldDef>,
                           oldName: string, newName: string, j: nat)
    requires |record| >= |oldFields| && j < |newFields|
    ensures var ts := Targets(oldFields, newFields, oldName, newName);
      Remapped(record, oldFields, newFields, oldName, newName)[j]
        == match LastAt(ts, j) case None => DefaultCell(newFields[j]) case Some(i) => record[i]
  {
    var ts := Targets(oldFields, newFields, oldName, newName);
    FillCell(record, ts, Defaults(newFields), j);
  }
}
