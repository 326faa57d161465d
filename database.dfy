/** What the PostgreSQL statements issued by the models do to an in-memory
    table: a table is the sequence of its rows, each row an object from column
    name to value. Also the partial-update helper the models compile their
    UPDATE statements with. helpers/sql.js is not part of this model; the model
    assumes that every supplied field overwrites its column and that the
    values come out in the order of the fields. */
module Database {
  import opened Wrappers
  import opened Js
  import opened Text

  type Row = Obj
  type Table = seq<Row>

  /** node-postgres sends an undefined parameter as NULL. */
  function ToParam(v: Value): Value {
    if v == Undefined then Null else v
  }

  /** `col = $n` with `v` bound to `$n`: SQL equality is never true when
      either side is NULL. */
  predicate Matches(row: Row, col: string, v: Value) {
    v != Null && v != Undefined && Get(row, col) == v
  }

  /** A primary-key constraint on `key`: never NULL, never repeated. */
  predicate KeyConstraint(t: Table, key: string) {
    && (forall i :: 0 <= i < |t| ==> Get(t[i], key) != Null && Get(t[i], key) != Undefined)
    && (forall i, j :: 0 <= i < j < |t| ==> Get(t[i], key) != Get(t[j], key))
  }

  /** Position of the first row whose `col` equals `v`. */
  function Find(t: Table, col: string, v: Value): (r: Option<nat>)
    ensures r.Some? ==> r.value < |t| && Matches(t[r.value], col, v)
    ensures r.None? <==> forall i :: 0 <= i < |t| ==> !Matches(t[i], col, v)
  {
    if t == [] then None
    else if Matches(t[0], col, v) then Some(0)
    else match Find(t[1..], col, v)
      case Some(i) => Some(i + 1)
      case None =>
        assert forall i :: 1 <= i < |t| ==> t[i] == t[1..][i - 1];
        None
  }

  /** Under a primary key there is at most one row with a given key. */
  lemma KeyFindsThatRow(t: Table, key: string, v: Value, i: nat)
    requires KeyConstraint(t, key)
    requires i < |t| && Matches(t[i], key, v)
    ensures Find(t, key, v) == Some(i)
  {
  }

  /** Two keyed tables that hold the same rows with key `v` find the same row
      for it. */
  lemma FindSameRow(t: Table, t': Table, key: string, v: Value)
    requires KeyConstraint(t, key) && KeyConstraint(t', key)
    requires forall row :: Matches(row, key, v) ==> (row in t' <==> row in t)
    ensures Find(t, key, v).Some? <==> Find(t', key, v).Some?
    ensures Find(t, key, v).Some? ==> t[Find(t, key, v).value] == t'[Find(t', key, v).value]
  {
    match Find(t, key, v)
    case Some(i) =>
      assert t[i] in t';
      var j :| 0 <= j < |t'| && t'[j] == t[i];
      KeyFindsThatRow(t', key, v, j);
    case None =>
      forall j | 0 <= j < |t'| ensures !Matches(t'[j], key, v) {
        assert t'[j] in t';
      }
  }

  /** `SELECT ... WHERE col = $1`: the matching rows, in table order. */
  function SelectWhere(t: Table, col: string, v: Value): (r: Table)
    ensures |r| <= |t|
    ensures forall row :: row in r <==> row in t && Matches(row, col, v)
  {
    if t == [] then []
    else (if Matches(t[0], col, v) then [t[0]] else []) + SelectWhere(t[1..], col, v)
  }

  /** Selecting by a primary key yields the one row that has it, or none. */
  lemma {:induction false} SelectByKey(t: Table, key: string, v: Value)
    requires KeyConstraint(t, key)
    ensures SelectWhere(t, key, v) == match Find(t, key, v) case Some(i) => [t[i]] case None => []
  {
    if t != [] {
      var rest := t[1..];
      assert KeyConstraint(rest, key) by {
        forall i, j | 0 <= i < j < |rest| ensures Get(rest[i], key) != Get(rest[j], key) {
          assert rest[i] == t[i + 1] && rest[j] == t[j + 1];
        }
      }
      SelectByKey(rest, key, v);
      if Matches(t[0], key, v) {
        forall i | 0 <= i < |rest| ensures !Matches(rest[i], key, v) {
          assert rest[i] == t[i + 1];
        }
      }
    }
  }

  /** Each row cut down to the columns of a RETURNING or SELECT list. */
  function ProjectAll(t: Table, cols: set<string>): (r: Table)
    ensures |r| == |t|
    ensures forall i :: 0 <= i < |t| ==> r[i] == Project(t[i], cols)
  {
    seq(|t|, i requires 0 <= i < |t| => Project(t[i], cols))
  }

  /** The rows a `DELETE ... WHERE col = $1` keeps, in table order. */
  function DeleteWhere(t: Table, col: string, v: Value): (r: Table)
    ensures |r| + |SelectWhere(t, col, v)| == |t|
    ensures forall row :: row in r <==> row in t && !Matches(row, col, v)
  {
    if t == [] then []
    else (if Matches(t[0], col, v) then [] else [t[0]]) + DeleteWhere(t[1..], col, v)
  }

  /** A DELETE that matches nothing leaves the table as it was. */
  lemma {:induction false} DeleteNothing(t: Table, col: string, v: Value)
    requires forall i :: 0 <= i < |t| ==> !Matches(t[i], col, v)
    ensures DeleteWhere(t, col, v) == t
  {
    if t != [] {
      var rest := t[1..];
      assert forall i :: 0 <= i < |rest| ==> rest[i] == t[i + 1];
      DeleteNothing(rest, col, v);
      assert DeleteWhere(t, col, v) == [t[0]] + rest;
      assert t == [t[0]] + rest;
    }
  }

  /** The rows after the first keep the primary key, and none has the first
      row's key. */
  lemma KeyConstraintTail(t: Table, key: string)
    requires KeyConstraint(t, key) && t != []
    ensures KeyConstraint(t[1..], key)
    ensures forall y :: y in t[1..] ==> Get(y, key) != Get(t[0], key)
  {
    var rest := t[1..];
    forall i, j | 0 <= i < j < |rest| ensures Get(rest[i], key) != Get(rest[j], key) {
      assert rest[i] == t[i + 1] && rest[j] == t[j + 1];
    }
    forall y | y in rest ensures Get(y, key) != Get(t[0], key) {
      var k :| 0 <= k < |rest| && rest[k] == y;
      assert t[k + 1] == y;
    }
  }

  /** A row with a fresh, non-NULL key can go in front of a keyed table. */
  lemma KeyConstraintCons(x: Row, d: Table, key: string)
    requires KeyConstraint(d, key)
    requires Get(x, key) != Null && Get(x, key) != Undefined
    requires forall y :: y in d ==> Get(y, key) != Get(x, key)
    ensures KeyConstraint([x] + d, key)
  {
    var r := [x] + d;
    forall i, j | 0 <= i < j < |r| ensures Get(r[i], key) != Get(r[j], key) {
      assert r[j] == d[j - 1];
      if i > 0 {
        assert r[i] == d[i - 1];
      }
    }
    forall i | 0 <= i < |r| ensures Get(r[i], key) != Null && Get(r[i], key) != Undefined {
      if i > 0 {
        assert r[i] == d[i - 1];
      }
    }
  }

  /** Deleting rows keeps the primary key intact. */
  lemma {:induction false} DeleteKeepsKey(t: Table, key: string, col: string, v: Value)
    requires KeyConstraint(t, key)
    ensures KeyConstraint(DeleteWhere(t, col, v), key)
  {
    if t != [] {
      var rest := t[1..];
      KeyConstraintTail(t, key);
      DeleteKeepsKey(rest, key, col, v);
      var d := DeleteWhere(rest, col, v);
      if Matches(t[0], col, v) {
        assert DeleteWhere(t, col, v) == d;
      } else {
        assert DeleteWhere(t, col, v) == [t[0]] + d;
        assert forall y :: y in d ==> y in rest;
        KeyConstraintCons(t[0], d, key);
      }
    }
  }

  /** `INSERT INTO ... VALUES (...)`: appends the row, unless its key is NULL
      or already taken, which violates the primary key. */
  function Insert(t: Table, key: string, row: Row): (r: Result<Table>)
    ensures r.Ok? <==> Get(row, key) != Null && Get(row, key) != Undefined && forall i :: 0 <= i < |t| ==> Get(t[i], key) != Get(row, key)
    ensures r.Ok? ==> r.value == t + [row]
    ensures KeyConstraint(t, key) && r.Ok? ==> KeyConstraint(r.value, key)
  {
    var k := Get(row, key);
    if k == Null || k == Undefined || Find(t, key, k).Some? then Err(ServerError)
    else
      assert forall i :: 0 <= i < |t| ==> Get(t[i], key) != k;
      Ok(t + [row])
  }

  /** Code-point order on a text column. NULL and non-text values sort as the
      empty string, so first, where PostgreSQL's ascending order puts NULL
      last; the models sort only by `username`, a key that is never NULL. */
  function SortKey(row: Row, col: string): string {
    match Get(row, col)
    case Str(s) => s
    case _ => ""
  }

  predicate SortedBy(t: Table, col: string) {
    forall i, j :: 0 <= i < j < |t| ==> LexLe(SortKey(t[i], col), SortKey(t[j], col))
  }

  /** A row whose key is at most every key of a sorted table can go first. */
  lemma SortedPrepend(x: Row, t: Table, col: string)
    requires SortedBy(t, col)
    requires forall y :: y in t ==> LexLe(SortKey(x, col), SortKey(y, col))
    ensures SortedBy([x] + t, col)
  {
    var r := [x] + t;
    forall i, j | 0 <= i < j < |r| ensures LexLe(SortKey(r[i], col), SortKey(r[j], col)) {
      if i == 0 {
        assert r[j] == t[j - 1];
      } else {
        assert r[i] == t[i - 1] && r[j] == t[j - 1];
      }
    }
  }

  /** Every key of a sorted table is at least its first. */
  lemma FirstIsLeast(x: Row, t: Table, col: string)
    requires SortedBy(t, col) && t != []
    requires LexLe(SortKey(x, col), SortKey(t[0], col))
    ensures forall y :: y in t ==> LexLe(SortKey(x, col), SortKey(y, col))
  {
    forall y | y in t ensures LexLe(SortKey(x, col), SortKey(y, col)) {
      var k :| 0 <= k < |t| && t[k] == y;
      if k > 0 {
        LexLeTransitive(SortKey(x, col), SortKey(t[0], col), SortKey(y, col));
      }
    }
  }

  lemma HeadBelowTail(t: Table, col: string)
    requires SortedBy(t, col) && t != []
    ensures SortedBy(t[1..], col)
    ensures forall y :: y in t[1..] ==> LexLe(SortKey(t[0], col), SortKey(y, col))
  {
    var rest := t[1..];
    forall i, j | 0 <= i < j < |rest| ensures LexLe(SortKey(rest[i], col), SortKey(rest[j], col)) {
      assert rest[i] == t[i + 1] && rest[j] == t[j + 1];
    }
    forall y | y in rest ensures LexLe(SortKey(t[0], col), SortKey(y, col)) {
      var k :| 0 <= k < |rest| && rest[k] == y;
      assert t[k + 1] == y;
    }
  }

  /** Inserting after the first row: the first row stays first. */
  lemma InsertAfterHead(row: Row, t: Table, col: string, rest: Table)
    requires SortedBy(t, col) && t != []
    requires !LexLe(SortKey(row, col), SortKey(t[0], col))
    requires SortedBy(rest, col) && multiset(rest) == multiset(t[1..]) + multiset{row}
    ensures SortedBy([t[0]] + rest, col)
    ensures multiset([t[0]] + rest) == multiset(t) + multiset{row}
  {
    assert t == [t[0]] + t[1..];
    HeadBelowTail(t, col);
    LexLeTotal(SortKey(row, col), SortKey(t[0], col));
    forall y | y in rest ensures LexLe(SortKey(t[0], col), SortKey(y, col)) {
      assert y in multiset(rest);
      assert y == row || y in multiset(t[1..]);
    }
    SortedPrepend(t[0], rest, col);
  }

  function InsertSorted(row: Row, t: Table, col: string): (r: Table)
    requires SortedBy(t, col)
    ensures SortedBy(r, col)
    ensures multiset(r) == multiset(t) + multiset{row}
  {
    if t == [] then [row]
    else if LexLe(SortKey(row, col), SortKey(t[0], col)) then
      FirstIsLeast(row, t, col);
      SortedPrepend(row, t, col);
      [row] + t
    else
      HeadBelowTail(t, col);
      var rest := InsertSorted(row, t[1..], col);
      InsertAfterHead(row, t, col, rest);
      [t[0]] + rest
  }

  /** `ORDER BY col`: the same rows, sorted. */
  function OrderBy(t: Table, col: string): (r: Table)
    ensures SortedBy(r, col)
    ensures multiset(r) == multiset(t)
  {
    if t == [] then []
    else
      assert t == [t[0]] + t[1..];
      InsertSorted(t[0], OrderBy(t[1..], col), col)
  }

  // ----- UPDATE with positional parameters -----

  /** `"col"=$n` in a SET list. */
  datatype Assignment = Assignment(column: string, placeholder: nat)

  /** `UPDATE t SET <setCols> WHERE <whereColumn> = $<wherePlaceholder>
      RETURNING <returning>`. */
  datatype UpdateStatement = UpdateStatement(setCols: seq<Assignment>, whereColumn: string, wherePlaceholder: nat, returning: set<string>)

  /** Every `$n` of the statement names one of `n` bound parameters. */
  predicate PlaceholdersBound(q: UpdateStatement, n: nat) {
    && (forall i :: 0 <= i < |q.setCols| ==> 1 <= q.setCols[i].placeholder <= n)
    && 1 <= q.wherePlaceholder <= n
  }

  predicate DistinctColumns(s: seq<Assignment>) {
    forall i, j :: 0 <= i < j < |s| ==> s[i].column != s[j].column
  }

  /** A row after a SET list, reading `$n` from `params`. */
  function ApplySet(row: Row, s: seq<Assignment>, params: seq<Value>): Row
    requires forall i :: 0 <= i < |s| ==> 1 <= s[i].placeholder <= |params|
    decreases |s|
  {
    if s == [] then row
    else ApplySet(row[s[0].column := ToParam(params[s[0].placeholder - 1])], s[1..], params)
  }

  /** What PostgreSQL does with an UPDATE and its parameters: an empty SET
      list does not parse, a `$n` without a parameter, an unknown column or a
      column set twice is rejected, and a key violation undoes the statement;
      otherwise the matching rows are updated and returned. */
  function ExecUpdate(t: Table, columns: set<string>, key: string, q: UpdateStatement, params: seq<Value>): (r: Result<(Table, Table)>)
    ensures q.setCols == [] ==> r.Err?
    ensures r.Ok? ==> |r.value.0| == |t| && KeyConstraint(r.value.0, key)
  {
    if q.setCols == [] || !PlaceholdersBound(q, |params|) then Err(ServerError)
    else if (exists i :: 0 <= i < |q.setCols| && q.setCols[i].column !in columns) || !DistinctColumns(q.setCols) then Err(ServerError)
    else
      var v := ToParam(params[q.wherePlaceholder - 1]);
      var t' := seq(|t|, i requires 0 <= i < |t| =>
        if Matches(t[i], q.whereColumn, v) then ApplySet(t[i], q.setCols, params) else t[i]);
      if !KeyConstraint(t', key) then Err(ServerError)
      else
        var hit := SelectWhere(t, q.whereColumn, v);
        Ok((t', seq(|hit|, i requires 0 <= i < |hit| => Project(ApplySet(hit[i], q.setCols, params), q.returning))))
  }

  /** The column a property name maps to: `jsToSql[k]`, else `k` itself. */
  function ColumnFor(jsToSql: map<string, string>, k: string): string {
    if k in jsToSql then jsToSql[k] else k
  }

  datatype PartialUpdate = PartialUpdate(setCols: seq<Assignment>, values: seq<Value>)

  /** `sqlForPartialUpdate(data, jsToSql)`: the i-th property of `data`
      becomes the i-th assignment, bound to `$(i+1)`, and its value the i-th
      parameter. */
  function SqlForPartialUpdate(data: Props, jsToSql: map<string, string>): (r: PartialUpdate)
    ensures |r.setCols| == |data| && |r.values| == |data|
    ensures forall i :: 0 <= i < |data| ==>
      r.setCols[i] == Assignment(ColumnFor(jsToSql, data[i].0), i + 1) && r.values[i] == data[i].1
  {
    PartialUpdate(
      seq(|data|, i requires 0 <= i < |data| => Assignment(ColumnFor(jsToSql, data[i].0), i + 1)),
      seq(|data|, i requires 0 <= i < |data| => data[i].1))
  }

  /** `data` with its property names translated to column names. */
  function Renamed(data: Props, jsToSql: map<string, string>): (r: Props)
    ensures |r| == |data|
    ensures forall i :: 0 <= i < |data| ==> r[i] == (ColumnFor(jsToSql, data[i].0), data[i].1)
  {
    seq(|data|, i requires 0 <= i < |data| => (ColumnFor(jsToSql, data[i].0), data[i].1))
  }

  /** A translation table that maps every name it knows to itself. */
  lemma RenamedByIdentity(data: Props, jsToSql: map<string, string>)
    requires forall k :: k in jsToSql ==> jsToSql[k] == k
    ensures Renamed(data, jsToSql) == data
  {
  }

  /** A row with each property of `data` written to its column, in order. */
  function Overwrite(row: Row, data: Props): Row
    decreases |data|
  {
    if data == [] then row else Overwrite(row[data[0].0 := ToParam(data[0].1)], data[1..])
  }

  lemma {:induction false} OverwriteKeys(row: Row, data: Props)
    requires KeysOf(data) <= row.Keys
    ensures Overwrite(row, data).Keys == row.Keys
    decreases |data|
  {
    if data != [] {
      assert KeysOf(data[1..]) <= KeysOf(data);
      OverwriteKeys(row[data[0].0 := ToParam(data[0].1)], data[1..]);
    }
  }

  /** A column `data` mentions holds its new value; every other column keeps
      its old one. */
  lemma {:induction false} OverwriteGet(row: Row, data: Props, k: string)
    requires DistinctKeys(data)
    ensures Get(Overwrite(row, data), k) == if k in KeysOf(data) then ToParam(Lookup(data, k)) else Get(row, k)
    decreases |data|
  {
    if data != [] {
      var rest := data[1..];
      assert DistinctKeys(rest) by {
        forall i, j | 0 <= i < j < |rest| ensures rest[i].0 != rest[j].0 {
          assert rest[i] == data[i + 1] && rest[j] == data[j + 1];
        }
      }
      OverwriteGet(row[data[0].0 := ToParam(data[0].1)], rest, k);
      assert KeysOf(data) == {data[0].0} + KeysOf(rest) by {
        forall x | x in KeysOf(data) ensures x in {data[0].0} + KeysOf(rest) {
          var i :| 0 <= i < |data| && data[i].0 == x;
          if i > 0 { assert rest[i - 1] == data[i]; }
        }
        forall x | x in KeysOf(rest) ensures x in KeysOf(data) {
          var i :| 0 <= i < |rest| && rest[i].0 == x;
          assert data[i + 1] == rest[i];
        }
      }
      if k == data[0].0 {
        assert k !in KeysOf(rest) by {
          forall i | 0 <= i < |rest| ensures rest[i].0 != k {
            assert rest[i] == data[i + 1];
          }
        }
      }
    }
  }

  /** The intended effect of a partial update of the row keyed `v`, with
      `data` already in column names: the same error conditions as
      ExecUpdate, stated on `data` instead of on placeholders. */
  function UpdateRows(t: Table, columns: set<string>, key: string, v: Value, data: Props, returning: set<string>): (r: Result<(Table, Table)>)
    ensures data == [] ==> r.Err?
    ensures r.Ok? ==> |r.value.0| == |t| && KeyConstraint(r.value.0, key)
    ensures r.Ok? ==> forall i :: 0 <= i < |t| && !Matches(t[i], key, ToParam(v)) ==> r.value.0[i] == t[i]
    ensures r.Ok? ==> forall i :: 0 <= i < |t| && Matches(t[i], key, ToParam(v)) ==> r.value.0[i] == Overwrite(t[i], data)
  {
    if data == [] then Err(ServerError)
    else if !(KeysOf(data) <= columns) || !DistinctKeys(data) then Err(ServerError)
    else
      var w := ToParam(v);
      var t' := seq(|t|, i requires 0 <= i < |t| => if Matches(t[i], key, w) then Overwrite(t[i], data) else t[i]);
      if !KeyConstraint(t', key) then Err(ServerError)
      else
        var hit := SelectWhere(t, key, w);
        Ok((t', seq(|hit|, i requires 0 <= i < |hit| => Project(Overwrite(hit[i], data), returning))))
  }

  /** Running the SET list `sqlForPartialUpdate` compiled, with the
      parameters `[...values, key]`, writes exactly the properties of `data`. */
  lemma {:induction false} SetListWritesData(row: Row, data: Props, jsToSql: map<string, string>, kv: Value, m: nat)
    requires m <= |data|
    ensures var pu := SqlForPartialUpdate(data, jsToSql);
      forall i :: 0 <= i < |pu.setCols[m..]| ==> 1 <= pu.setCols[m..][i].placeholder <= |pu.values + [kv]|
    ensures var pu := SqlForPartialUpdate(data, jsToSql);
      ApplySet(row, pu.setCols[m..], pu.values + [kv]) == Overwrite(row, Renamed(data, jsToSql)[m..])
    decreases |data| - m
  {
    var pu := SqlForPartialUpdate(data, jsToSql);
    var params := pu.values + [kv];
    var ren := Renamed(data, jsToSql);
    if m < |data| {
      var row' := row[ren[m].0 := ToParam(ren[m].1)];
      SetListWritesData(row', data, jsToSql, kv, m + 1);
      assert pu.setCols[m..][1..] == pu.setCols[m + 1..];
      assert ren[m..][1..] == ren[m + 1..];
      assert params[pu.setCols[m].placeholder - 1] == data[m].1;
    }
  }

  lemma SetListIsOverwrite(row: Row, data: Props, jsToSql: map<string, string>, kv: Value)
    ensures var pu := SqlForPartialUpdate(data, jsToSql);
      && (forall i :: 0 <= i < |pu.setCols| ==> 1 <= pu.setCols[i].placeholder <= |pu.values + [kv]|)
      && ApplySet(row, pu.setCols, pu.values + [kv]) == Overwrite(row, Renamed(data, jsToSql))
  {
    var pu := SqlForPartialUpdate(data, jsToSql);
    SetListWritesData(row, data, jsToSql, kv, 0);
    assert pu.setCols[0..] == pu.setCols;
    assert Renamed(data, jsToSql)[0..] == Renamed(data, jsToSql);
  }

  /** The checks the database makes on the compiled statement are the
      checks the intended update makes on `data`. */
  lemma GuardsAligned(columns: set<string>, key: string, data: Props, jsToSql: map<string, string>, kv: Value, returning: set<string>)
    ensures var pu := SqlForPartialUpdate(data, jsToSql);
      var q := UpdateStatement(pu.setCols, key, |pu.values| + 1, returning);
      var ren := Renamed(data, jsToSql);
      && (q.setCols == [] <==> data == [])
      && PlaceholdersBound(q, |pu.values + [kv]|)
      && (pu.values + [kv])[q.wherePlaceholder - 1] == kv
      && ((exists i :: 0 <= i < |q.setCols| && q.setCols[i].column !in columns) <==> !(KeysOf(ren) <= columns))
      && (DistinctColumns(q.setCols) <==> DistinctKeys(ren))
  {
    var pu := SqlForPartialUpdate(data, jsToSql);
    var q := UpdateStatement(pu.setCols, key, |pu.values| + 1, returning);
    var ren := Renamed(data, jsToSql);
    assert forall i :: 0 <= i < |ren| ==> ren[i].0 == q.setCols[i].column;
    if KeysOf(ren) <= columns {
      forall i | 0 <= i < |q.setCols| ensures q.setCols[i].column in columns {
        assert ren[i].0 in KeysOf(ren);
      }
    } else {
      var x :| x in KeysOf(ren) && x !in columns;
      var i :| 0 <= i < |ren| && ren[i].0 == x;
      assert q.setCols[i].column !in columns;
    }
  }

  /** Row by row, the compiled SET list and the intended overwrite agree. */
  lemma TablesAligned(t: Table, key: string, w: Value, data: Props, jsToSql: map<string, string>, kv: Value)
    ensures var pu := SqlForPartialUpdate(data, jsToSql);
      && (forall i :: 0 <= i < |pu.setCols| ==> 1 <= pu.setCols[i].placeholder <= |pu.values + [kv]|)
      && seq(|t|, i requires 0 <= i < |t| => if Matches(t[i], key, w) then ApplySet(t[i], pu.setCols, pu.values + [kv]) else t[i])
         == seq(|t|, i requires 0 <= i < |t| => if Matches(t[i], key, w) then Overwrite(t[i], Renamed(data, jsToSql)) else t[i])
  {
    var pu := SqlForPartialUpdate(data, jsToSql);
    SetListIsOverwrite(map[], data, jsToSql, kv);
    var t1 := seq(|t|, i requires 0 <= i < |t| => if Matches(t[i], key, w) then ApplySet(t[i], pu.setCols, pu.values + [kv]) else t[i]);
    var t2 := seq(|t|, i requires 0 <= i < |t| => if Matches(t[i], key, w) then Overwrite(t[i], Renamed(data, jsToSql)) else t[i]);
    forall i | 0 <= i < |t| ensures t1[i] == t2[i] {
      SetListIsOverwrite(t[i], data, jsToSql, kv);
    }
  }

  /** Row by row, the rows RETURNING reports agree too. */
  lemma ReturnedAligned(hit: Table, data: Props, jsToSql: map<string, string>, kv: Value, returning: set<string>)
    ensures var pu := SqlForPartialUpdate(data, jsToSql);
      && (forall i :: 0 <= i < |pu.setCols| ==> 1 <= pu.setCols[i].placeholder <= |pu.values + [kv]|)
      && seq(|hit|, i requires 0 <= i < |hit| => Project(ApplySet(hit[i], pu.setCols, pu.values + [kv]), returning))
         == seq(|hit|, i requires 0 <= i < |hit| => Project(Overwrite(hit[i], Renamed(data, jsToSql)), returning))
  {
    var pu := SqlForPartialUpdate(data, jsToSql);
    SetListIsOverwrite(map[], data, jsToSql, kv);
    var r1 := seq(|hit|, i requires 0 <= i < |hit| => Project(ApplySet(hit[i], pu.setCols, pu.values + [kv]), returning));
    var r2 := seq(|hit|, i requires 0 <= i < |hit| => Project(Overwrite(hit[i], Renamed(data, jsToSql)), returning));
    forall i | 0 <= i < |hit| ensures r1[i] == r2[i] {
      SetListIsOverwrite(hit[i], data, jsToSql, kv);
    }
  }

  /** Positional parameter alignment: with the WHERE placeholder numbered
      `values.length + 1` and the key appended after the values, the database
      updates exactly the row whose key is `kv`, writing each property of
      `data` to its column, and fails in exactly the cases the intended update
      fails. */
  lemma PartialUpdateAligned(t: Table, columns: set<string>, key: string, data: Props, jsToSql: map<string, string>, kv: Value, returning: set<string>)
    ensures var pu := SqlForPartialUpdate(data, jsToSql);
      ExecUpdate(t, columns, key, UpdateStatement(pu.setCols, key, |pu.values| + 1, returning), pu.values + [kv])
        == UpdateRows(t, columns, key, kv, Renamed(data, jsToSql), returning)
  {
    GuardsAligned(columns, key, data, jsToSql, kv, returning);
    TablesAligned(t, key, ToParam(kv), data, jsToSql, kv);
    ReturnedAligned(SelectWhere(t, key, ToParam(kv)), data, jsToSql, kv, returning);
  }

  /** An update whose WHERE matches no row changes nothing and returns no row. */
  lemma UpdateRowsNoMatch(t: Table, columns: set<string>, key: string, v: Value, data: Props, returning: set<string>)
    requires Find(t, key, ToParam(v)).None?
    requires UpdateRows(t, columns, key, v, data, returning).Ok?
    ensures UpdateRows(t, columns, key, v, data, returning).value == (t, [])
  {
    var w := ToParam(v);
    var t' := seq(|t|, i requires 0 <= i < |t| => if Matches(t[i], key, w) then Overwrite(t[i], data) else t[i]);
    assert t' == t;
    DeleteNothing(t, key, w);
    var hit := SelectWhere(t, key, w);
    assert hit == [];
    var rows := seq(|hit|, i requires 0 <= i < |hit| => Project(Overwrite(hit[i], data), returning));
    assert rows == [];
    assert UpdateRows(t, columns, key, v, data, returning) == Ok((t', rows));
  }

  /** Under a primary key, an update of the row keyed `v` at position `i`
      overwrites that row alone and returns it. */
  lemma UpdateRowsHit(t: Table, columns: set<string>, key: string, v: Value, data: Props, returning: set<string>, i: nat)
    requires KeyConstraint(t, key)
    requires i < |t| && Matches(t[i], key, ToParam(v))
    requires UpdateRows(t, columns, key, v, data, returning).Ok?
    ensures var (t', rows) := UpdateRows(t, columns, key, v, data, returning).value;
      && |t'| == |t|
      && t'[i] == Overwrite(t[i], data)
      && (forall j :: 0 <= j < |t| && j != i ==> t'[j] == t[j])
      && rows == [Project(Overwrite(t[i], data), returning)]
  {
    KeyFindsThatRow(t, key, ToParam(v), i);
    SelectByKey(t, key, ToParam(v));
  }

  /** An update that does not write the key column keeps the primary key. */
  lemma UpdateKeepsKey(t: Table, key: string, v: Value, data: Props)
    requires KeyConstraint(t, key)
    requires DistinctKeys(data) && key !in KeysOf(data)
    ensures var w := ToParam(v);
      KeyConstraint(seq(|t|, i requires 0 <= i < |t| => if Matches(t[i], key, w) then Overwrite(t[i], data) else t[i]), key)
  {
    var w := ToParam(v);
    var t' := seq(|t|, i requires 0 <= i < |t| => if Matches(t[i], key, w) then Overwrite(t[i], data) else t[i]);
    forall i | 0 <= i < |t| ensures Get(t'[i], key) == Get(t[i], key) {
      OverwriteGet(t[i], data, key);
    }
  }
}
