/** The immutable SELECT builder (`selectBuilder` in select.go). `Select` starts from the empty
    state with the given columns; every other builder call except `ToSql` returns a new builder
    whose accumulated state differs from the old one in one field; `ToSql` renders that state to
    text, arguments and an error. The state is modelled directly as a `SelectData` value. */
module SelectBuilder {
  import opened Strings
  import opened Decimal
  import opened SelectState
  import R = SelectRender

  /** A builder is the statement state it has accumulated. */
  type Builder<P> = SelectData<P>

  /** `emptySelectBuilder`: no DISTINCT flag, no columns and no clause. */
  function Empty<P>(): (b: Builder<P>)
    ensures |b.columns| == 0 && !b.distinct
    ensures forall k: R.ClauseKind :: !R.IsSet(b, k)
  {
    SelectData(false, [], "", [], [], [], [], "", "")
  }

  /** `Select(columns...)`: the empty builder with the given result columns. */
  function Select<P>(columns: seq<string>): (b: Builder<P>)
    ensures b == Empty<P>().(columns := columns)
  {
    Columns(Empty(), columns)
  }

  /** `Distinct()`: sets the DISTINCT flag and nothing else. */
  function Distinct<P>(b: Builder<P>): (r: Builder<P>)
    ensures r.distinct && SameExcept(b, r, DistinctField)
  {
    b.(distinct := true)
  }

  /** `Columns(columns...)`: adds result columns after those already there. */
  function Columns<P>(b: Builder<P>, columns: seq<string>): (r: Builder<P>)
    ensures r.columns == b.columns + columns && SameExcept(b, r, ColumnsField)
  {
    b.(columns := b.columns + columns)
  }

  /** `From(from)`: replaces the FROM text. */
  function From<P>(b: Builder<P>, from: string): (r: Builder<P>)
    ensures r.from == from && SameExcept(b, r, FromField)
  {
    b.(from := from)
  }

  /** `Where(pred, ...)`: adds one WHERE predicate part after those already there. */
  function Where<P>(b: Builder<P>, part: P): (r: Builder<P>)
    ensures r.whereParts == b.whereParts + [part] && SameExcept(b, r, WhereField)
  {
    b.(whereParts := b.whereParts + [part])
  }

  /** `GroupBy(groupBys...)`: adds GROUP BY expressions after those already there. */
  function GroupBy<P>(b: Builder<P>, groupBys: seq<string>): (r: Builder<P>)
    ensures r.groupBys == b.groupBys + groupBys && SameExcept(b, r, GroupByField)
  {
    b.(groupBys := b.groupBys + groupBys)
  }

  /** `Having(pred, ...)`: adds one HAVING predicate part after those already there. */
  function Having<P>(b: Builder<P>, part: P): (r: Builder<P>)
    ensures r.havingParts == b.havingParts + [part] && SameExcept(b, r, HavingField)
  {
    b.(havingParts := b.havingParts + [part])
  }

  /** `OrderBy(orderBys...)`: adds ORDER BY expressions after those already there. */
  function OrderBy<P>(b: Builder<P>, orderBys: seq<string>): (r: Builder<P>)
    ensures r.orderBys == b.orderBys + orderBys && SameExcept(b, r, OrderByField)
  {
    b.(orderBys := b.orderBys + orderBys)
  }

  /** `Limit(limit)`: stores the decimal text of the number, which is never empty, so
      every limit, zero included, is written. */
  function Limit<P>(b: Builder<P>, limit: u64): (r: Builder<P>)
    ensures Canonical(r.limit) && ParseDecimal(r.limit) == limit as nat
    ensures R.IsSet(r, R.LimitClause) && SameExcept(b, r, LimitField)
  {
    ParseFormat(limit as nat);
    b.(limit := FormatUint(limit as nat))
  }

  /** `Offset(offset)`: stores the decimal text of the number, which is never empty, so
      every offset, zero included, is written. */
  function Offset<P>(b: Builder<P>, offset: u64): (r: Builder<P>)
    ensures Canonical(r.offset) && ParseDecimal(r.offset) == offset as nat
    ensures R.IsSet(r, R.OffsetClause) && SameExcept(b, r, OffsetField)
  {
    ParseFormat(offset as nat);
    b.(offset := FormatUint(offset as nat))
  }

  /** `selectBuilder.ToSql`: renders the accumulated state. */
  method ToSql<P, A>(b: Builder<P>, partsToSql: seq<P> -> Fragment<A>)
    returns (sqlStr: string, args: seq<A>, err: R.Option<R.RenderError>)
    ensures err.Some? <==> |b.columns| == 0
    ensures err.Some? ==> sqlStr == "" && args == []
    ensures R.Output(sqlStr, args, err) == R.Render(b, partsToSql)
  {
    sqlStr, args, err := R.ToSql(b, partsToSql);
  }

  /** A builder with no column renders the error, with no text and no arguments. */
  lemma SelectNothingFails<P, A>(columns: seq<string>, partsToSql: seq<P> -> Fragment<A>)
    ensures R.Render(Select<P>(columns), partsToSql).err.Some? <==> columns == []
    ensures columns == [] ==>
      R.Render(Select<P>(columns), partsToSql) == R.Output("", [], R.Some(R.MissingResultColumns))
  {
  }

  /** Setting DISTINCT twice is setting it once. */
  lemma DistinctIdempotent<P>(b: Builder<P>)
    ensures Distinct(Distinct(b)) == Distinct(b)
  {
  }

  /** DISTINCT changes the rendered text only by inserting `DISTINCT ` after `SELECT `; the
      clauses and the arguments stay as they were. */
  lemma DistinctInsertsKeyword<P, A>(b: Builder<P>, partsToSql: seq<P> -> Fragment<A>)
    requires !b.distinct && |b.columns| > 0
    ensures |R.Render(b, partsToSql).sql| >= 7
    ensures R.Render(Distinct(b), partsToSql).sql == "SELECT DISTINCT " + R.Render(b, partsToSql).sql[7..]
    ensures R.Render(Distinct(b), partsToSql).args == R.Render(b, partsToSql).args
  {
    var d := Distinct(b);
    R.EmittedIgnoresHead(d, b, |R.ClauseOrder|, partsToSql);
    var rest := R.Flatten(R.Clauses(b, partsToSql));
    assert R.Render(b, partsToSql).sql == R.Head(b) + rest;
    assert R.Render(d, partsToSql).sql == R.Head(d) + rest;
    DistinctText(Join(b.columns, ", "), rest);
  }

  /** The text of a head without and with `DISTINCT `, followed by the same clauses. */
  lemma DistinctText(columns: string, rest: string)
    ensures |"SELECT " + "" + columns + rest| >= 7
    ensures "SELECT " + "DISTINCT " + columns + rest == "SELECT DISTINCT " + ("SELECT " + "" + columns + rest)[7..]
  {
    AppendEmpty("SELECT ");
    ConcatAssoc("SELECT ", columns, rest);
    DropPrefix("SELECT ", columns + rest);
    assert "SELECT " + "DISTINCT " == "SELECT DISTINCT ";
    ConcatAssoc("SELECT DISTINCT ", columns, rest);
  }

  /** Adding columns in two calls is adding them all in one. */
  lemma ColumnsCompose<P>(b: Builder<P>, xs: seq<string>, ys: seq<string>)
    ensures Columns(Columns(b, xs), ys) == Columns(b, xs + ys)
  {
    assert b.columns + xs + ys == b.columns + (xs + ys);
  }

  /** Added columns are written after the existing ones, separated from them by ", ", and
      the clauses stay as they were. */
  lemma ColumnsRenderJoined<P, A>(b: Builder<P>, columns: seq<string>, partsToSql: seq<P> -> Fragment<A>)
    requires |b.columns| > 0 && |columns| > 0
    ensures R.Head(Columns(b, columns)) == R.Head(b) + ", " + Join(columns, ", ")
    ensures R.Clauses(Columns(b, columns), partsToSql) == R.Clauses(b, partsToSql)
  {
    JoinAppend(b.columns, columns, ", ");
    var lead := "SELECT " + (if b.distinct then "DISTINCT " else "");
    ConcatAssoc(lead, Join(b.columns, ", ") + ", ", Join(columns, ", "));
    ConcatAssoc(lead, Join(b.columns, ", "), ", ");
    R.EmittedIgnoresHead(Columns(b, columns), b, |R.ClauseOrder|, partsToSql);
  }

  /** The last FROM wins. */
  lemma FromLastWins<P>(b: Builder<P>, f: string, g: string)
    ensures From(From(b, f), g) == From(b, g)
  {
  }

  /** `From("")` leaves the statement without a FROM clause; any other text gives exactly
      one FROM clause, holding that text. */
  lemma FromRendered<P, A>(b: Builder<P>, from: string, partsToSql: seq<P> -> Fragment<A>)
    ensures (exists i :: 0 <= i < |R.Clauses(From(b, from), partsToSql)|
               && R.Clauses(From(b, from), partsToSql)[i].kind == R.FromClause)
      <==> from != ""
    ensures forall i :: 0 <= i < |R.Clauses(From(b, from), partsToSql)|
              && R.Clauses(From(b, from), partsToSql)[i].kind == R.FromClause
              ==> R.Clauses(From(b, from), partsToSql)[i].body == from
  {
    R.ClausePresence(From(b, from), partsToSql, R.FromClause);
    R.ClausesInOrder(From(b, from), partsToSql);
  }

  /** A WHERE call always yields a WHERE clause; it renders all the parts added so far,
      this one last. */
  lemma WhereRendered<P, A>(b: Builder<P>, part: P, partsToSql: seq<P> -> Fragment<A>)
    ensures exists i :: 0 <= i < |R.Clauses(Where(b, part), partsToSql)|
              && R.Clauses(Where(b, part), partsToSql)[i]
              == R.Clause(R.WhereClause, partsToSql(b.whereParts + [part]).sql, partsToSql(b.whereParts + [part]).args)
  {
    var r := Where(b, part);
    R.ClausePresence(r, partsToSql, R.WhereClause);
    R.ClausesInOrder(r, partsToSql);
    var i :| 0 <= i < |R.Clauses(r, partsToSql)| && R.Clauses(r, partsToSql)[i].kind == R.WhereClause;
    assert R.Clauses(r, partsToSql)[i]
      == R.Clause(R.WhereClause, partsToSql(b.whereParts + [part]).sql, partsToSql(b.whereParts + [part]).args);
  }

  /** A HAVING call always yields a HAVING clause; it renders all the parts added so far,
      this one last. */
  lemma HavingRendered<P, A>(b: Builder<P>, part: P, partsToSql: seq<P> -> Fragment<A>)
    ensures exists i :: 0 <= i < |R.Clauses(Having(b, part), partsToSql)|
              && R.Clauses(Having(b, part), partsToSql)[i]
              == R.Clause(R.HavingClause, partsToSql(b.havingParts + [part]).sql, partsToSql(b.havingParts + [part]).args)
  {
    var r := Having(b, part);
    R.ClausePresence(r, partsToSql, R.HavingClause);
    R.ClausesInOrder(r, partsToSql);
    var i :| 0 <= i < |R.Clauses(r, partsToSql)| && R.Clauses(r, partsToSql)[i].kind == R.HavingClause;
    assert R.Clauses(r, partsToSql)[i]
      == R.Clause(R.HavingClause, partsToSql(b.havingParts + [part]).sql, partsToSql(b.havingParts + [part]).args);
  }

  /** Adding GROUP BY expressions in two calls is adding them all in one. */
  lemma GroupByCompose<P>(b: Builder<P>, xs: seq<string>, ys: seq<string>)
    ensures GroupBy(GroupBy(b, xs), ys) == GroupBy(b, xs + ys)
  {
    assert b.groupBys + xs + ys == b.groupBys + (xs + ys);
  }

  /** Adding ORDER BY expressions in two calls is adding them all in one. */
  lemma OrderByCompose<P>(b: Builder<P>, xs: seq<string>, ys: seq<string>)
    ensures OrderBy(OrderBy(b, xs), ys) == OrderBy(b, xs + ys)
  {
    assert b.orderBys + xs + ys == b.orderBys + (xs + ys);
  }

  /** The last LIMIT wins. */
  lemma LimitLastWins<P>(b: Builder<P>, m: u64, n: u64)
    ensures Limit(Limit(b, m), n) == Limit(b, n)
  {
  }

  /** The last OFFSET wins. */
  lemma OffsetLastWins<P>(b: Builder<P>, m: u64, n: u64)
    ensures Offset(Offset(b, m), n) == Offset(b, n)
  {
  }

  /** A LIMIT call always yields a LIMIT clause whose body is the decimal text of the number,
      with no argument; `Limit(0)` writes `LIMIT 0`. */
  lemma LimitRendered<P, A>(b: Builder<P>, n: u64, partsToSql: seq<P> -> Fragment<A>)
    ensures exists i :: 0 <= i < |R.Clauses(Limit(b, n), partsToSql)|
              && R.Clauses(Limit(b, n), partsToSql)[i] == R.Clause(R.LimitClause, FormatUint(n as nat), [])
    ensures n == 0 ==> FormatUint(n as nat) == "0"
  {
    var r := Limit(b, n);
    R.ClausePresence(r, partsToSql, R.LimitClause);
    R.ClausesInOrder(r, partsToSql);
    var i :| 0 <= i < |R.Clauses(r, partsToSql)| && R.Clauses(r, partsToSql)[i].kind == R.LimitClause;
    assert R.Clauses(r, partsToSql)[i] == R.Clause(R.LimitClause, FormatUint(n as nat), []);
  }

  /** An OFFSET call always yields an OFFSET clause whose body is the decimal text of the
      number, with no argument; `Offset(0)` writes `OFFSET 0`. */
  lemma OffsetRendered<P, A>(b: Builder<P>, n: u64, partsToSql: seq<P> -> Fragment<A>)
    ensures exists i :: 0 <= i < |R.Clauses(Offset(b, n), partsToSql)|
              && R.Clauses(Offset(b, n), partsToSql)[i] == R.Clause(R.OffsetClause, FormatUint(n as nat), [])
    ensures n == 0 ==> FormatUint(n as nat) == "0"
  {
    var r := Offset(b, n);
    R.ClausePresence(r, partsToSql, R.OffsetClause);
    R.ClausesInOrder(r, partsToSql);
    var i :| 0 <= i < |R.Clauses(r, partsToSql)| && R.Clauses(r, partsToSql)[i].kind == R.OffsetClause;
    assert R.Clauses(r, partsToSql)[i] == R.Clause(R.OffsetClause, FormatUint(n as nat), []);
  }

  /** A typical chain of calls, written out: the head, then FROM, WHERE, ORDER BY and LIMIT
      in the fixed order whatever order the calls came in, with the WHERE arguments. */
  lemma TypicalQuery<P, A>(part: P, partsToSql: seq<P> -> Fragment<A>)
    ensures var b := Limit(Where(OrderBy(From(Select<P>(["id", "name"]), "users"), ["name"]), part), 10);
      var w := partsToSql([part]);
      R.Render(b, partsToSql) == R.Output(
        "SELECT " + "id" + ", " + "name" + " FROM " + "users" + " WHERE " + w.sql + " ORDER BY " + "name" + " LIMIT " + "10",
        w.args, R.None)
  {
    var b := Limit(Where(OrderBy(From(Select<P>(["id", "name"]), "users"), ["name"]), part), 10);
    assert FormatUint(10) == "10";
    assert b == SelectData(false, ["id", "name"], "users", [part], [], [], ["name"], "10", "");
    TypicalRender(part, partsToSql);
  }

  /** The rendering of the state `TypicalQuery` builds. */
  lemma TypicalRender<P, A>(part: P, partsToSql: seq<P> -> Fragment<A>)
    ensures var w := partsToSql([part]);
      R.Render(SelectData(false, ["id", "name"], "users", [part], [], [], ["name"], "10", ""), partsToSql)
        == R.Output(
             "SELECT " + "id" + ", " + "name" + " FROM " + "users" + " WHERE " + w.sql + " ORDER BY " + "name" + " LIMIT " + "10",
             w.args, R.None)
  {
    var w := partsToSql([part]);
    var d := SelectData(false, ["id", "name"], "users", [part], [], [], ["name"], "10", "");
    assert R.Section(d, R.FromClause, partsToSql) == " FROM " + "users";
    assert R.Section(d, R.WhereClause, partsToSql) == " WHERE " + w.sql;
    assert R.Section(d, R.GroupByClause, partsToSql) == "";
    assert R.Section(d, R.HavingClause, partsToSql) == "";
    assert R.Section(d, R.OrderByClause, partsToSql) == " ORDER BY " + "name";
    assert R.Section(d, R.LimitClause, partsToSql) == " LIMIT " + "10";
    assert R.Section(d, R.OffsetClause, partsToSql) == "";
    assert R.Head(d) == "SELECT " + "id" + ", " + "name" by {
      AppendEmpty("SELECT ");
      assert Join(["id", "name"], ", ") == "id" + ", " + "name";
      ConcatAssoc("SELECT " + "id", ", ", "name");
      ConcatAssoc("SELECT ", "id", ", " + "name");
      ConcatAssoc("SELECT ", "id", ", ");
    }
    R.RenderSections(d, partsToSql);
    R.RenderArgs(d, partsToSql);
    var t0 := "SELECT " + "id" + ", " + "name";
    ConcatAssoc(t0, " FROM ", "users");
    var t1 := t0 + " FROM " + "users";
    ConcatAssoc(t1, " WHERE ", w.sql);
    var t2 := t1 + " WHERE " + w.sql;
    AppendEmpty(t2);
    ConcatAssoc(t2, " ORDER BY ", "name");
    var t3 := t2 + " ORDER BY " + "name";
    ConcatAssoc(t3, " LIMIT ", "10");
    AppendEmpty(t3 + " LIMIT " + "10");
  }
}
