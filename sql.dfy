/** The partial-update statements the admin routes build: a SET list grown one
    body field at a time with numbered placeholders, then `updated_at = NOW()`,
    and the row id bound to the last placeholder. The module also gives such a
    statement its meaning on one row, so that what it changes can be stated. */
module Sql {
  import opened Common

  /** A value bound to a placeholder or held in a column. */
  datatype Value =
    | Null
    | Int(i: int)
    | Text(s: string)
    | Bool(b: bool)
    | TextArray(a: seq<string>)
    | Timestamp(ms: int)

  /** A nullable column's value: SQL NULL for `None`. */
  function IntValue(o: Option<nat>): Value {
    if o.Some? then Int(o.value) else Null
  }

  function TextValue(o: Option<string>): Value {
    if o.Some? then Text(o.value) else Null
  }

  function ArrayValue(o: Option<seq<string>>): Value {
    if o.Some? then TextArray(o.value) else Null
  }

  function TimeValue(o: Option<int>): Value {
    if o.Some? then Timestamp(o.value) else Null
  }

  /** One entry of the SET list: `column = $placeholder`, `column = NOW()`, or
      `column = literal` written into the SQL text. Columns are drawn from the
      type `C` of the table's columns. */
  datatype Assignment<C> = Bind(column: C, placeholder: nat) | SetNow(column: C) | SetLiteral(column: C, literal: Value)

  /** `UPDATE … SET sets WHERE id = $idPlaceholder`, executed with `params`
      (`$1` is `params[0]`). */
  datatype UpdateStatement<C> = UpdateStatement(sets: seq<Assignment<C>>, params: seq<Value>, idPlaceholder: nat)

  /** One optional field of a request body: the column it updates and its value,
      None when the body leaves it `undefined` (a JSON null is `Some(Null)`). */
  datatype Field<C> = Field(column: C, value: Option<Value>)

  /** The fields the body supplies, in the order the handler tests them. */
  function Supplied<C(==)>(fields: seq<Field<C>>): (s: seq<Field<C>>)
    ensures |s| <= |fields|
    ensures forall f :: f in s ==> f in fields && f.value.Some?
    ensures forall f :: f in fields && f.value.Some? ==> f in s
    decreases |fields|
  {
    if fields == [] then []
    else
      var last := fields[|fields| - 1];
      Supplied(fields[..|fields| - 1]) + (if last.value.Some? then [last] else [])
  }

  /** `stmt` is the statement the handler builds from `fields` and the row id:
      `$1..$n` bind the n supplied fields in order, `updated_at = NOW()` closes
      the SET list, and the id is bound to `$(n+1)`, the last parameter. */
  predicate BuiltFrom<C(==)>(stmt: UpdateStatement<C>, fields: seq<Field<C>>, updatedAt: C, id: Value) {
    var s := Supplied(fields);
    var n := |s|;
    && |stmt.sets| == n + 1
    && (forall k :: 0 <= k < n ==> stmt.sets[k] == Bind(s[k].column, k + 1))
    && stmt.sets[n] == SetNow(updatedAt)
    && |stmt.params| == n + 1
    && (forall k :: 0 <= k < n ==> stmt.params[k] == s[k].value.value)
    && stmt.params[n] == id
    && stmt.idPlaceholder == n + 1
  }

  /** `sets` and `params` bind the supplied fields `s` in order to `$1..$n`. */
  ghost predicate Numbered<C>(s: seq<Field<C>>, sets: seq<Assignment<C>>, params: seq<Value>) {
    && |sets| == |s| == |params|
    && (forall k :: 0 <= k < |s| ==> sets[k] == Bind(s[k].column, k + 1))
    && (forall k :: 0 <= k < |s| ==> s[k].value.Some? && params[k] == s[k].value.value)
  }

  /** Grow the SET list and the parameter list over the body fields, numbering
      placeholders with a running counter. */
  method BindSupplied<C>(fields: seq<Field<C>>) returns (sets: seq<Assignment<C>>, params: seq<Value>)
    ensures Numbered(Supplied(fields), sets, params)
  {
    sets, params := [], [];
    var paramCount := 1;
    var i := 0;
    ghost var s: seq<Field<C>> := [];
    while i < |fields|
      invariant 0 <= i <= |fields|
      invariant s == Supplied(fields[..i])
      invariant Numbered(s, sets, params)
      invariant paramCount == |s| + 1
    {
      SuppliedStep(fields, i);
      if fields[i].value.Some? {
        Extend(s, sets, params, fields[i]);
        sets := sets + [Bind(fields[i].column, paramCount)];
        params := params + [fields[i].value.value];
        paramCount := paramCount + 1;
        s := s + [fields[i]];
      }
      i := i + 1;
    }
    assert fields[..i] == fields;
  }

  /** The whole statement: the supplied fields' bindings, `updated_at = NOW()`,
      and the id bound last; an empty SET list is refused (the caller answers
      400 "No fields to update"). */
  method BuildUpdate<C(==)>(fields: seq<Field<C>>, updatedAt: C, id: Value) returns (r: Option<UpdateStatement<C>>)
    ensures r.None? <==> Supplied(fields) == []
    ensures r.Some? ==> BuiltFrom(r.value, fields, updatedAt, id)
  {
    var sets, params := BindSupplied(fields);
    if |sets| == 0 {
      return None;
    }
    Closed(fields, Supplied(fields), sets, params, updatedAt, id);
    r := Some(UpdateStatement(sets + [SetNow(updatedAt)], params + [id], |sets| + 1));
  }

  /** Binding one more supplied field to the next placeholder keeps the numbering. */
  lemma Extend<C>(s: seq<Field<C>>, sets: seq<Assignment<C>>, params: seq<Value>, f: Field<C>)
    requires Numbered(s, sets, params) && f.value.Some?
    ensures Numbered(s + [f], sets + [Bind(f.column, |s| + 1)], params + [f.value.value])
  {
  }

  /** Closing the SET list with `updated_at = NOW()` and binding the id last
      yields the statement `BuiltFrom` describes. */
  lemma Closed<C>(fields: seq<Field<C>>, s: seq<Field<C>>, sets: seq<Assignment<C>>, params: seq<Value>,
                  updatedAt: C, id: Value)
    requires s == Supplied(fields) && Numbered(s, sets, params)
    ensures BuiltFrom(UpdateStatement(sets + [SetNow(updatedAt)], params + [id], |s| + 1), fields, updatedAt, id)
  {
  }

  /** Taking one more body field adds it to the supplied ones when it has a value. */
  lemma SuppliedStep<C>(fields: seq<Field<C>>, i: int)
    requires 0 <= i < |fields|
    ensures Supplied(fields[..i + 1]) == Supplied(fields[..i]) + (if fields[i].value.Some? then [fields[i]] else [])
  {
    assert fields[..i + 1][..i] == fields[..i];
  }

  // ---------------------------------------------------------------------------
  // Meaning of a statement on the row it targets

  type Row<C> = map<C, Value>

  /** Every placeholder of the SET list names a parameter. */
  predicate PlaceholdersBound<C(==)>(stmt: UpdateStatement<C>) {
    forall k :: 0 <= k < |stmt.sets| && stmt.sets[k].Bind? ==>
      1 <= stmt.sets[k].placeholder <= |stmt.params|
  }

  /** Apply the SET list left to right, with NOW() read as `now`. */
  function ApplySets<C(==)>(row: Row<C>, sets: seq<Assignment<C>>, params: seq<Value>, now: int): Row<C>
    requires forall k :: 0 <= k < |sets| && sets[k].Bind? ==> 1 <= sets[k].placeholder <= |params|
    decreases |sets|
  {
    if sets == [] then row
    else
      var next := match sets[0]
        case Bind(c, k) => row[c := params[k - 1]]
        case SetNow(c) => row[c := Timestamp(now)]
        case SetLiteral(c, v) => row[c := v];
      ApplySets(next, sets[1..], params, now)
  }

  function Execute<C(==)>(row: Row<C>, stmt: UpdateStatement<C>, now: int): Row<C>
    requires PlaceholdersBound(stmt)
  {
    ApplySets(row, stmt.sets, stmt.params, now)
  }

  /** Write the supplied fields' values into their columns, in order. */
  function Overlay<C(==)>(row: Row<C>, s: seq<Field<C>>): Row<C>
    requires forall f :: f in s ==> f.value.Some?
    decreases |s|
  {
    if s == [] then row else Overlay(row[s[0].column := s[0].value.value], s[1..])
  }

  predicate DistinctColumns<C(==)>(fields: seq<Field<C>>) {
    forall i, j :: 0 <= i < j < |fields| ==> fields[i].column != fields[j].column
  }

  /** Some supplied field writes column `c`. */
  predicate Writes<C(==)>(fields: seq<Field<C>>, c: C) {
    exists f :: f in fields && f.value.Some? && f.column == c
  }

  lemma {:induction false} BuiltStatementIsBound<C>(stmt: UpdateStatement<C>, fields: seq<Field<C>>, updatedAt: C, id: Value)
    requires BuiltFrom(stmt, fields, updatedAt, id)
    ensures PlaceholdersBound(stmt)
  {
  }

  /** Executing the first `k` bindings of a built statement overlays the first `k`
      supplied fields. */
  lemma {:induction false} ApplyBindsIsOverlay<C>(row: Row<C>, s: seq<Field<C>>, sets: seq<Assignment<C>>, params: seq<Value>, first: nat, now: int)
    requires forall f :: f in s ==> f.value.Some?
    requires |sets| == |s| && first + |s| <= |params|
    requires forall k :: 0 <= k < |s| ==> sets[k] == Bind(s[k].column, first + k + 1)
    requires forall k :: 0 <= k < |s| ==> params[first + k] == s[k].value.value
    ensures forall k :: 0 <= k < |sets| && sets[k].Bind? ==> 1 <= sets[k].placeholder <= |params|
    ensures ApplySets(row, sets, params, now) == Overlay(row, s)
    decreases |s|
  {
    if s != [] {
      assert sets[0] == Bind(s[0].column, first + 1);
      forall k | 0 <= k < |s| - 1
        ensures sets[1..][k] == Bind(s[1..][k].column, (first + 1) + k + 1)
        ensures params[(first + 1) + k] == s[1..][k].value.value
      {
        assert sets[k + 1] == Bind(s[k + 1].column, first + (k + 1) + 1);
        assert params[first + (k + 1)] == s[k + 1].value.value;
      }
      ApplyBindsIsOverlay(row[s[0].column := s[0].value.value], s[1..], sets[1..], params, first + 1, now);
    }
  }

  /** What a built statement does: the supplied fields overlaid on the row, then
      `updated_at` set to the time of execution. */
  lemma ExecuteBuilt<C>(row: Row<C>, fields: seq<Field<C>>, stmt: UpdateStatement<C>, updatedAt: C, id: Value, now: int)
    requires BuiltFrom(stmt, fields, updatedAt, id)
    ensures PlaceholdersBound(stmt)
    ensures Execute(row, stmt, now) == Overlay(row, Supplied(fields))[updatedAt := Timestamp(now)]
  {
    var s := Supplied(fields);
    var n := |s|;
    var binds := stmt.sets[..n];
    assert stmt.sets == binds + [SetNow(updatedAt)];
    ApplyBindsIsOverlay(row, s, binds, stmt.params, 0, now);
    ApplySetsAppend(row, binds, [SetNow(updatedAt)], stmt.params, now);
  }

  lemma {:induction false} ApplySetsAppend<C>(row: Row<C>, a: seq<Assignment<C>>, b: seq<Assignment<C>>, params: seq<Value>, now: int)
    requires forall k :: 0 <= k < |a| && a[k].Bind? ==> 1 <= a[k].placeholder <= |params|
    requires forall k :: 0 <= k < |b| && b[k].Bind? ==> 1 <= b[k].placeholder <= |params|
    ensures forall k :: 0 <= k < |a + b| && (a + b)[k].Bind? ==> 1 <= (a + b)[k].placeholder <= |params|
    ensures ApplySets(row, a + b, params, now) == ApplySets(ApplySets(row, a, params, now), b, params, now)
    decreases |a|
  {
    if a == [] {
      assert a + b == b;
    } else {
      assert (a + b)[0] == a[0];
      assert (a + b)[1..] == a[1..] + b;
      var next := match a[0]
        case Bind(c, k) => row[c := params[k - 1]]
        case SetNow(c) => row[c := Timestamp(now)]
        case SetLiteral(c, v) => row[c := v];
      ApplySetsAppend(next, a[1..], b, params, now);
    }
  }

  /** An overlay changes exactly the columns the fields name: each named column
      holds its field's value (columns being distinct), every other column keeps
      its value, and no column appears or disappears except the named ones. */
  lemma {:induction false} OverlayEffect<C>(row: Row<C>, s: seq<Field<C>>)
    requires forall f :: f in s ==> f.value.Some?
    requires DistinctColumns(s)
    ensures forall f :: f in s ==> f.column in Overlay(row, s) && Overlay(row, s)[f.column] == f.value.value
    ensures forall c :: !Writes(s, c) ==>
      (c in Overlay(row, s) <==> c in row) && (c in row ==> Overlay(row, s)[c] == row[c])
    decreases |s|
  {
    if s != [] {
      var next := row[s[0].column := s[0].value.value];
      assert forall f :: f in s[1..] ==> f in s;
      OverlayEffect(next, s[1..]);
      forall c | Writes(s[1..], c)
        ensures c != s[0].column
      {
        var f :| f in s[1..] && f.value.Some? && f.column == c;
        var j :| 0 <= j < |s[1..]| && s[1..][j] == f;
        assert s[j + 1] == f;
      }
      forall c | !Writes(s, c)
        ensures !Writes(s[1..], c) && c != s[0].column
      {
        assert s[0] in s;
      }
    }
  }

  /** Supplied fields keep the order and the distinct columns of the body. */
  lemma {:induction false} SuppliedDistinct<C>(fields: seq<Field<C>>)
    requires DistinctColumns(fields)
    ensures DistinctColumns(Supplied(fields))
    decreases |fields|
  {
    if fields != [] {
      var init := fields[..|fields| - 1];
      var last := fields[|fields| - 1];
      assert DistinctColumns(init);
      SuppliedDistinct(init);
      forall f | f in Supplied(init)
        ensures f.column != last.column
      {
        var j :| 0 <= j < |init| && init[j] == f;
        assert fields[j] == f;
      }
    }
  }

  lemma {:induction false} SuppliedEmpty<C>(fields: seq<Field<C>>)
    ensures Supplied(fields) == [] <==> forall k :: 0 <= k < |fields| ==> fields[k].value.None?
  {
    if Supplied(fields) != [] {
      assert Supplied(fields)[0] in Supplied(fields);
    } else {
      forall k | 0 <= k < |fields| ensures fields[k].value.None? {
        assert fields[k] in fields;
      }
    }
  }

  lemma SuppliedWrites<C>(fields: seq<Field<C>>, c: C)
    ensures Writes(Supplied(fields), c) <==> Writes(fields, c)
  {
  }

  /** The statement built from a body whose columns are distinct and exclude
      `updated_at` writes each supplied field's value to its column, stamps
      `updated_at`, and leaves every other column of the row as it was. */
  lemma UpdateChangesOnlySuppliedColumns<C>(row: Row<C>, fields: seq<Field<C>>, stmt: UpdateStatement<C>,
                                            updatedAt: C, id: Value, now: int)
    requires BuiltFrom(stmt, fields, updatedAt, id)
    requires DistinctColumns(fields) && !Writes(fields, updatedAt)
    ensures PlaceholdersBound(stmt)
    ensures updatedAt in Execute(row, stmt, now) && Execute(row, stmt, now)[updatedAt] == Timestamp(now)
    ensures forall f :: f in fields && f.value.Some? ==>
      f.column in Execute(row, stmt, now) && Execute(row, stmt, now)[f.column] == f.value.value
    ensures forall c :: c != updatedAt && !Writes(fields, c) ==>
      (c in Execute(row, stmt, now) <==> c in row)
      && (c in row ==> Execute(row, stmt, now)[c] == row[c])
  {
    ExecuteBuilt(row, fields, stmt, updatedAt, id, now);
    SuppliedDistinct(fields);
    OverlayEffect(row, Supplied(fields));
    forall c ensures Writes(Supplied(fields), c) <==> Writes(fields, c) {
      SuppliedWrites(fields, c);
    }
  }

  /** Read column by column: the column of body field `k` holds the field's
      value when the body supplies it, and its old value otherwise. */
  lemma ExecuteAtField<C>(row: Row<C>, fields: seq<Field<C>>, stmt: UpdateStatement<C>,
                          updatedAt: C, id: Value, now: int, k: int)
    requires BuiltFrom(stmt, fields, updatedAt, id)
    requires DistinctColumns(fields) && !Writes(fields, updatedAt)
    requires 0 <= k < |fields| && fields[k].column in row && fields[k].column != updatedAt
    ensures PlaceholdersBound(stmt)
    ensures fields[k].column in Execute(row, stmt, now)
    ensures Execute(row, stmt, now)[fields[k].column] ==
      if fields[k].value.Some? then fields[k].value.value else row[fields[k].column]
  {
    UpdateChangesOnlySuppliedColumns(row, fields, stmt, updatedAt, id, now);
    if fields[k].value.Some? {
      assert fields[k] in fields;
    } else if Writes(fields, fields[k].column) {
      var f :| f in fields && f.value.Some? && f.column == fields[k].column;
      var j :| 0 <= j < |fields| && fields[j] == f;
      assert false;
    }
  }

  /** A column no supplied field writes, other than `updated_at`, keeps its value. */
  lemma ExecuteKeeps<C>(row: Row<C>, fields: seq<Field<C>>, stmt: UpdateStatement<C>,
                        updatedAt: C, id: Value, now: int, c: C)
    requires BuiltFrom(stmt, fields, updatedAt, id)
    requires DistinctColumns(fields) && !Writes(fields, updatedAt)
    requires c != updatedAt && !Writes(fields, c) && c in row
    ensures PlaceholdersBound(stmt)
    ensures c in Execute(row, stmt, now) && Execute(row, stmt, now)[c] == row[c]
  {
    UpdateChangesOnlySuppliedColumns(row, fields, stmt, updatedAt, id, now);
  }

  /** `updated_at` holds the time of the update. */
  lemma ExecuteStamps<C>(row: Row<C>, fields: seq<Field<C>>, stmt: UpdateStatement<C>,
                         updatedAt: C, id: Value, now: int)
    requires BuiltFrom(stmt, fields, updatedAt, id)
    requires DistinctColumns(fields) && !Writes(fields, updatedAt)
    ensures PlaceholdersBound(stmt)
    ensures updatedAt in Execute(row, stmt, now) && Execute(row, stmt, now)[updatedAt] == Timestamp(now)
  {
    UpdateChangesOnlySuppliedColumns(row, fields, stmt, updatedAt, id, now);
  }
}
