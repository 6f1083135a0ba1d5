/**
  The assembly of the write statements from a decoded request body: the column list, the
  placeholders and the arguments of PutRecord's INSERT, and the SET clause and the arguments
  of UpdateRecord's UPDATE. Both loops range over a Go map; `order` is the order that range
  takes, and the properties below hold for every such order.
 */
module Payload {
  import opened Wrappers
  import opened GoStrings
  import opened Schema
  import opened Requests

  /** What json.Unmarshal makes of the request body: an object, a JSON null, or an error. */
  datatype Decoded = DecodedObject(fields: map<string, JsonValue>) | DecodedNull | Undecodable(message: string)

  // ---------------------------------------------------------------------------------------
  // PutRecord
  // ---------------------------------------------------------------------------------------

  /**
    PutRecord's value map before the loop: every column seeded with null, the fields of the body
    stored over it, and every key that is not a column deleted again.
   */
  function InsertValues(t: Table, body: map<string, JsonValue>): (values: map<string, JsonValue>)
    ensures forall k :: k in values <==> k in t.columns
    ensures forall k | k in values :: values[k] == if k in body then body[k] else Null
  {
    var seeded := map c | c in t.columns && CheckColumn(c, t.columns) :: Null;
    var merged := seeded + body;
    map k | k in merged && CheckColumn(k, t.columns) :: merged[k]
  }

  /**
    The value map after decoding: unmarshalling a JSON null sets the map to nil, so nothing is
    left to insert; an undecodable body leaves no map at all.
   */
  function DecodedInsertValues(t: Table, decoded: Decoded): (values: Option<map<string, JsonValue>>)
    ensures decoded.Undecodable? <==> values.None?
    ensures decoded.DecodedNull? ==> values == Some(map[])
    ensures decoded.DecodedObject? ==> values.Some? && forall k :: k in values.value <==> k in t.columns
  {
    match decoded
    case DecodedObject(fields) => Some(InsertValues(t, fields))
    case DecodedNull => Some(map[])
    case Undecodable(_) => None
  }

  /** The column list, the placeholders, the arguments and the id key PutRecord collects. */
  datatype InsertPlan = InsertPlan(fields: seq<string>, placeholders: seq<string>, args: seq<JsonValue>, idName: string)

  /**
    PutRecord's loop over the value map, key by key in `order`: a key without "id" in its name
    adds itself as a field, a "?" placeholder, and its value when CheckType accepts it or else
    the empty string; a key with "id" in its name only becomes the id key.
   */
  function AssembleInsert(t: Table, values: map<string, JsonValue>, order: seq<string>): (p: InsertPlan)
    requires forall i :: 0 <= i < |order| ==> order[i] in values
    ensures |p.fields| == |p.placeholders| == |p.args| <= |order|
    decreases |order|
  {
    if |order| == 0 then InsertPlan([], [], [], "")
    else
      var n := |order| - 1;
      var p := AssembleInsert(t, values, order[..n]);
      var key, v := order[n], values[order[n]];
      if !IdLike(key) && CheckType(key, v, t) then
        p.(fields := p.fields + [key], placeholders := p.placeholders + ["?"], args := p.args + [v])
      else if !IdLike(key) then
        p.(fields := p.fields + [key], placeholders := p.placeholders + ["?"], args := p.args + [Str("")])
      else p.(idName := key)
  }

  /** The argument written for a column: its value if CheckType accepts it, else the empty string. */
  function InsertArg(t: Table, key: string, v: JsonValue): (arg: JsonValue)
    ensures CheckType(key, v, t) ==> arg == v
    ensures !CheckType(key, v, t) ==> arg == Str("")
  {
    if CheckType(key, v, t) then v else Str("")
  }

  /** No element repeats. */
  predicate Distinct(s: seq<string>) {
    forall i, j :: 0 <= i < j < |s| ==> s[i] != s[j]
  }

  /** One field, one "?" placeholder and one argument per listed key. */
  lemma {:induction false} AssembleInsertShape(t: Table, values: map<string, JsonValue>, order: seq<string>)
    requires forall i :: 0 <= i < |order| ==> order[i] in values
    ensures var p := AssembleInsert(t, values, order);
            && |p.fields| == |p.placeholders| == |p.args|
            && forall j :: 0 <= j < |p.placeholders| ==> p.placeholders[j] == "?"
    decreases |order|
  {
    if |order| > 0 {
      AssembleInsertShape(t, values, order[..|order| - 1]);
    }
  }

  /**
    Every listed field is a visited key without "id" in its name, and its argument is the value
    CheckType lets through or the empty string.
   */
  lemma {:induction false} AssembleInsertArgs(t: Table, values: map<string, JsonValue>, order: seq<string>)
    requires forall i :: 0 <= i < |order| ==> order[i] in values
    ensures var p := AssembleInsert(t, values, order);
            && |p.fields| == |p.args|
            && forall j :: 0 <= j < |p.fields| ==>
                 && p.fields[j] in order
                 && !IdLike(p.fields[j])
                 && p.args[j] == InsertArg(t, p.fields[j], values[p.fields[j]])
    decreases |order|
  {
    AssembleInsertShape(t, values, order);
    if |order| > 0 {
      var n := |order| - 1;
      var prefix := order[..n];
      AssembleInsertArgs(t, values, prefix);
      assert forall k :: k in prefix ==> k in order;
    }
  }

  /** One more visited key adds itself to the column list exactly when "id" is not in its name. */
  lemma AssembleInsertFieldsStep(t: Table, values: map<string, JsonValue>, order: seq<string>)
    requires |order| > 0 && forall i :: 0 <= i < |order| ==> order[i] in values
    ensures var n := |order| - 1;
            AssembleInsert(t, values, order).fields ==
              AssembleInsert(t, values, order[..n]).fields + (if IdLike(order[n]) then [] else [order[n]])
  {
  }

  /** One more visited key becomes the id key exactly when "id" is in its name. */
  lemma AssembleInsertIdStep(t: Table, values: map<string, JsonValue>, order: seq<string>)
    requires |order| > 0 && forall i :: 0 <= i < |order| ==> order[i] in values
    ensures var n := |order| - 1;
            AssembleInsert(t, values, order).idName ==
              if IdLike(order[n]) then order[n] else AssembleInsert(t, values, order[..n]).idName
  {
  }

  /** Every visited key without "id" in its name is listed. */
  lemma {:induction false} AssembleInsertCovers(t: Table, values: map<string, JsonValue>, order: seq<string>)
    requires forall i :: 0 <= i < |order| ==> order[i] in values
    ensures forall k | k in order && !IdLike(k) :: k in AssembleInsert(t, values, order).fields
    decreases |order|
  {
    if |order| > 0 {
      var n := |order| - 1;
      var prefix := order[..n];
      AssembleInsertCovers(t, values, prefix);
      AssembleInsertFieldsStep(t, values, order);
      assert forall k :: k in order ==> k in prefix || k == order[n] by {
        assert order == prefix + [order[n]];
      }
    }
  }

  /** Appending an element not yet present keeps a sequence free of repeats. */
  lemma DistinctSnoc(s: seq<string>, x: string)
    requires Distinct(s) && x !in s
    ensures Distinct(s + [x])
  {
  }

  /** No column is listed twice when no key is visited twice. */
  lemma {:induction false} AssembleInsertDistinct(t: Table, values: map<string, JsonValue>, order: seq<string>)
    requires forall i :: 0 <= i < |order| ==> order[i] in values
    ensures Distinct(order) ==> Distinct(AssembleInsert(t, values, order).fields)
    decreases |order|
  {
    if |order| > 0 && Distinct(order) {
      var n := |order| - 1;
      var prefix := order[..n];
      assert Distinct(prefix);
      AssembleInsertDistinct(t, values, prefix);
      AssembleInsertArgs(t, values, prefix);
      AssembleInsertFieldsStep(t, values, order);
      var fields := AssembleInsert(t, values, prefix).fields;
      if !IdLike(order[n]) {
        assert order[n] !in prefix;
        assert order[n] !in fields;
        DistinctSnoc(fields, order[n]);
      }
    }
  }

  /** A key is the last one with "id" in its name in the order visited. */
  ghost predicate LastIdKey(order: seq<string>, key: string) {
    exists i :: 0 <= i < |order| && order[i] == key && IdLike(key) &&
      forall j :: i < j < |order| ==> !IdLike(order[j])
  }

  /**
    The id key PutRecord answers with is the last key with "id" in its name in the order
    visited, and empty when there is none.
   */
  lemma {:induction false} AssembleInsertIdName(t: Table, values: map<string, JsonValue>, order: seq<string>)
    requires forall i :: 0 <= i < |order| ==> order[i] in values
    ensures var p := AssembleInsert(t, values, order);
            && (p.idName == "" <==> forall i :: 0 <= i < |order| ==> !IdLike(order[i]))
            && (p.idName != "" ==> LastIdKey(order, p.idName))
    decreases |order|
  {
    if |order| > 0 {
      var n := |order| - 1;
      var prefix := order[..n];
      AssembleInsertIdName(t, values, prefix);
      AssembleInsertIdStep(t, values, order);
      var p := AssembleInsert(t, values, order);
      if IdLike(order[n]) {
        ContainsLength(order[n], "id");
        assert LastIdKey(order, order[n]);
      } else {
        assert forall i :: 0 <= i < n ==> prefix[i] == order[i];
        if p.idName != "" {
          var i :| 0 <= i < |prefix| && prefix[i] == p.idName && IdLike(p.idName) &&
                   forall j :: i < j < |prefix| ==> !IdLike(prefix[j]);
          assert order[i] == p.idName;
          assert forall j :: i < j < |order| ==> !IdLike(order[j]);
          assert LastIdKey(order, p.idName);
        }
      }
    }
  }

  /**
    PutRecord on a decoded object, for every order of the value map: each column without "id"
    in its name is inserted exactly once, with the body's value when CheckType accepts it, null
    when the body leaves it out (and CheckType accepts null), and the empty string otherwise;
    the columns with "id" in their name are never inserted, and one of them is the id key.
   */
  lemma PutRecordColumns(t: Table, body: map<string, JsonValue>, order: seq<string>)
    requires Enumerates(order, InsertValues(t, body).Keys)
    ensures var values := InsertValues(t, body);
            var p := AssembleInsert(t, values, order);
            && |p.args| == |p.fields| == |p.placeholders|
            && Distinct(p.fields)
            && (forall c :: c in p.fields <==> c in t.columns && !IdLike(c))
            && (forall j :: 0 <= j < |p.fields| ==>
                  p.args[j] == InsertArg(t, p.fields[j], if p.fields[j] in body then body[p.fields[j]] else Null))
            && (p.idName != "" ==> p.idName in t.columns && IdLike(p.idName))
            && (p.idName == "" <==> forall c :: c in t.columns ==> !IdLike(c))
  {
    var values := InsertValues(t, body);
    AssembleInsertShape(t, values, order);
    AssembleInsertArgs(t, values, order);
    AssembleInsertCovers(t, values, order);
    AssembleInsertDistinct(t, values, order);
    AssembleInsertIdName(t, values, order);
  }

  /** The INSERT statement PutRecord prepares. */
  function InsertQuery(table: string, p: InsertPlan): string {
    "INSERT INTO " + table + " (" + Join(p.fields, ", ") + ") VALUES (" + Join(p.placeholders, ", ") + ")"
  }

  // ---------------------------------------------------------------------------------------
  // UpdateRecord
  // ---------------------------------------------------------------------------------------

  /** The SET clause and the arguments collected so far, or the first key that was refused. */
  datatype UpdatePlan = Rejected(key: string) | Assembled(fields: string, args: seq<JsonValue>)

  /** UpdateRecord refuses a field CheckType rejects, and any write to the id column. */
  predicate UpdateRefuses(t: Table, idName: string, key: string, v: JsonValue) {
    !CheckType(key, v, t) || idName == key
  }

  /** The text appended for one field. */
  function Assignment(key: string): string {
    "" + key + " = ?"
  }

  /**
    UpdateRecord's loop over the body, key by key in `order`: the first refused key ends the
    request; every other key appends `key = ?` to the text and its value to the arguments.
   */
  function AssembleUpdate(t: Table, idName: string, body: map<string, JsonValue>, order: seq<string>): (p: UpdatePlan)
    requires forall i :: 0 <= i < |order| ==> order[i] in body
    ensures p.Rejected? ==> p.key in order && UpdateRefuses(t, idName, p.key, body[p.key])
    decreases |order|
  {
    if |order| == 0 then Assembled("", [])
    else
      var n := |order| - 1;
      match AssembleUpdate(t, idName, body, order[..n])
      case Rejected(key) => Rejected(key)
      case Assembled(fields, args) =>
        var key, v := order[n], body[order[n]];
        if UpdateRefuses(t, idName, key, v) then Rejected(key)
        else Assembled(fields + Assignment(key), args + [v])
  }

  /** The texts of a sequence run together, left to right. */
  function Concat(parts: seq<string>): string
    decreases |parts|
  {
    if |parts| == 0 then "" else Concat(parts[..|parts| - 1]) + parts[|parts| - 1]
  }

  /** Running parts together starts with the first part. */
  lemma {:induction false} ConcatCons(parts: seq<string>)
    requires |parts| > 0
    ensures Concat(parts) == parts[0] + Concat(parts[1..])
    decreases |parts|
  {
    var n := |parts| - 1;
    if n > 0 {
      ConcatCons(parts[..n]);
      assert parts[..n][1..] == parts[1..][..n - 1];
      assert parts[1..][n - 1] == parts[n];
    } else {
      assert parts[1..] == [];
    }
  }

  /** The assignment of each key, in order. */
  function Assignments(keys: seq<string>): (a: seq<string>)
    ensures |a| == |keys|
    ensures forall i :: 0 <= i < |keys| ==> a[i] == Assignment(keys[i])
  {
    seq(|keys|, i requires 0 <= i < |keys| => Assignment(keys[i]))
  }

  /** Key `i` of the order is refused, and no earlier key is. */
  ghost predicate FirstRefused(t: Table, idName: string, body: map<string, JsonValue>, order: seq<string>, i: int)
    requires forall i :: 0 <= i < |order| ==> order[i] in body
  {
    && 0 <= i < |order|
    && UpdateRefuses(t, idName, order[i], body[order[i]])
    && forall j :: 0 <= j < i ==> !UpdateRefuses(t, idName, order[j], body[order[j]])
  }

  /**
    The update is refused exactly when some visited key is refused, and the key reported is the
    first refused one.
   */
  lemma {:induction false} AssembleUpdateRejects(t: Table, idName: string, body: map<string, JsonValue>, order: seq<string>)
    requires forall i :: 0 <= i < |order| ==> order[i] in body
    ensures var p := AssembleUpdate(t, idName, body, order);
            && (p.Rejected? <==> exists i :: 0 <= i < |order| && UpdateRefuses(t, idName, order[i], body[order[i]]))
            && (p.Rejected? ==> exists i :: FirstRefused(t, idName, body, order, i) && order[i] == p.key)
    decreases |order|
  {
    if |order| > 0 {
      var n := |order| - 1;
      var prefix := order[..n];
      AssembleUpdateRejects(t, idName, body, prefix);
      assert forall i :: 0 <= i < n ==> prefix[i] == order[i];
      var q := AssembleUpdate(t, idName, body, prefix);
      if q.Rejected? {
        var i :| FirstRefused(t, idName, body, prefix, i) && prefix[i] == q.key;
        assert FirstRefused(t, idName, body, order, i);
      } else if UpdateRefuses(t, idName, order[n], body[order[n]]) {
        assert FirstRefused(t, idName, body, order, n);
      }
    }
  }

  /**
    An update that is not refused holds the assignments of all keys in the order visited, and
    their values as arguments in the same order.
   */
  lemma {:induction false} AssembleUpdateAssembled(t: Table, idName: string, body: map<string, JsonValue>, order: seq<string>)
    requires forall i :: 0 <= i < |order| ==> order[i] in body
    ensures var p := AssembleUpdate(t, idName, body, order);
            p.Assembled? ==>
              && p.fields == Concat(Assignments(order))
              && |p.args| == |order|
              && forall i :: 0 <= i < |order| ==> p.args[i] == body[order[i]]
    decreases |order|
  {
    if |order| > 0 {
      var n := |order| - 1;
      var prefix := order[..n];
      AssembleUpdateAssembled(t, idName, body, prefix);
      assert forall i :: 0 <= i < n ==> prefix[i] == order[i];
      assert Assignments(order)[..n] == Assignments(prefix);
    }
  }

  /** The SET clause: the first `count - 1` question marks get a comma after them. */
  function SetClause(fields: string, count: int): string {
    ReplaceRune(fields, '?', "?,", count - 1)
  }

  /** An assignment is its key and " = ", which hold no question mark, then the question mark. */
  lemma AssignmentParts(key: string)
    requires '?' !in key
    ensures Assignment(key) == (key + " = ") + "?"
    ensures '?' !in key + " = "
  {
  }

  /** Replacing after a head without question marks replaces at the question mark that follows it. */
  lemma ReplaceAfterHead(head: string, rest: string, n: int)
    requires '?' !in head && n > 0
    ensures ReplaceRune(head + ("?" + rest), '?', "?,", n) == head + ("?," + ReplaceRune(rest, '?', "?,", n - 1))
  {
    ReplaceRuneSkips(head, "?" + rest, '?', "?,", n);
    assert ("?" + rest)[1..] == rest;
  }

  /**
    When no key contains a question mark, the counted replacement turns the run-together
    assignments into the assignments joined by commas (with no space after them).
   */
  lemma {:induction false} SetClauseIsJoin(keys: seq<string>)
    requires forall i :: 0 <= i < |keys| ==> '?' !in keys[i]
    ensures SetClause(Concat(Assignments(keys)), |keys|) == Join(Assignments(keys), ",")
    decreases |keys|
  {
    if |keys| > 0 {
      var a := Assignments(keys);
      var n := |keys| - 1;
      ConcatCons(a);
      if n == 0 {
        ReplaceRuneNone(Concat(a), '?', "?,");
        assert a[1..] == [];
      } else {
        var rest := Concat(a[1..]);
        var head := keys[0] + " = ";
        AssignmentParts(keys[0]);
        assert Concat(a) == head + ("?" + rest);
        ReplaceAfterHead(head, rest, n);
        assert a[1..] == Assignments(keys[1..]);
        SetClauseIsJoin(keys[1..]);
        JoinCons(a[0], a[1..], ",");
        assert [a[0]] + a[1..] == a;
      }
    }
  }

  /**
    UpdateRecord on a decoded object, for every order of the body map: the update is refused
    exactly when some field is refused, whatever the order; otherwise, when no key contains a
    question mark, the SET clause is the comma-joined `key = ?` assignments and there is one
    argument per key of the body.
   */
  lemma UpdateRecordFields(t: Table, idName: string, body: map<string, JsonValue>, order: seq<string>)
    requires Enumerates(order, body.Keys)
    ensures var p := AssembleUpdate(t, idName, body, order);
            && (p.Rejected? <==> exists k | k in body :: UpdateRefuses(t, idName, k, body[k]))
            && (p.Rejected? ==> p.key in body && UpdateRefuses(t, idName, p.key, body[p.key]))
            && (p.Assembled? && (forall k | k in body :: '?' !in k) ==>
                  SetClause(p.fields, |body|) == Join(Assignments(order), ",") && |p.args| == |body|)
  {
    AssembleUpdateRejects(t, idName, body, order);
    AssembleUpdateAssembled(t, idName, body, order);
    EnumerationLength(order, body.Keys);
    var p := AssembleUpdate(t, idName, body, order);
    if exists k | k in body :: UpdateRefuses(t, idName, k, body[k]) {
      var k :| k in body && UpdateRefuses(t, idName, k, body[k]);
      var i :| 0 <= i < |order| && order[i] == k;
    }
    if p.Assembled? && (forall k | k in body :: '?' !in k) {
      SetClauseIsJoin(order);
    }
  }

  /** The UPDATE statement: the SET clause, then the id column compared with the id text. */
  function UpdateQuery(table: string, assignments: string, idName: string, id: string): string {
    "UPDATE " + table + " SET " + assignments + " WHERE " + idName + " = " + id
  }
}
