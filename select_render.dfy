/** The SELECT renderer (`selectData.ToSql` in select.go): a pure specification of its
    output as a head followed by an ordered list of clauses, the step-by-step method that
    writes the text into an accumulator, and the properties of that output. */
module SelectRender {
  import opened Strings
  import opened SelectState

  datatype Option<T> = None | Some(value: T)

  /** The one error the renderer reports: the statement has no result column. */
  datatype RenderError = MissingResultColumns

  /** What rendering returns: the SQL text, the bound arguments, and an error or none. */
  datatype Output<A> = Output(sql: string, args: seq<A>, err: Option<RenderError>)

  /** The optional clauses that may follow `SELECT [DISTINCT] <columns>`. */
  datatype ClauseKind =
    | FromClause | WhereClause | GroupByClause | HavingClause
    | OrderByClause | LimitClause | OffsetClause

  /** The fixed order in which the optional clauses are written. */
  const ClauseOrder: seq<ClauseKind> :=
    [FromClause, WhereClause, GroupByClause, HavingClause, OrderByClause, LimitClause, OffsetClause]

  /** The text written before a clause's body, spaces included. */
  function Keyword(k: ClauseKind): string
  {
    match k
    case FromClause => " FROM "
    case WhereClause => " WHERE "
    case GroupByClause => " GROUP BY "
    case HavingClause => " HAVING "
    case OrderByClause => " ORDER BY "
    case LimitClause => " LIMIT "
    case OffsetClause => " OFFSET "
  }

  /** The position of a clause kind in `ClauseOrder`. */
  function Rank(k: ClauseKind): nat
  {
    match k
    case FromClause => 0
    case WhereClause => 1
    case GroupByClause => 2
    case HavingClause => 3
    case OrderByClause => 4
    case LimitClause => 5
    case OffsetClause => 6
  }

  /** The field or list backing clause `k` is non-empty, so the clause is written. */
  predicate IsSet<P>(d: SelectData<P>, k: ClauseKind)
  {
    match k
    case FromClause => |d.from| > 0
    case WhereClause => |d.whereParts| > 0
    case GroupByClause => |d.groupBys| > 0
    case HavingClause => |d.havingParts| > 0
    case OrderByClause => |d.orderBys| > 0
    case LimitClause => |d.limit| > 0
    case OffsetClause => |d.offset| > 0
  }

  /** The text written after clause `k`'s keyword. WHERE and HAVING take theirs from the
      predicate renderer `partsToSql`; expression lists are joined with ", ". */
  function Body<P, A>(d: SelectData<P>, k: ClauseKind, partsToSql: seq<P> -> Fragment<A>): string
  {
    match k
    case FromClause => d.from
    case WhereClause => partsToSql(d.whereParts).sql
    case GroupByClause => Join(d.groupBys, ", ")
    case HavingClause => partsToSql(d.havingParts).sql
    case OrderByClause => Join(d.orderBys, ", ")
    case LimitClause => d.limit
    case OffsetClause => d.offset
  }

  /** The arguments clause `k` contributes: only WHERE and HAVING have any. */
  function ClauseArgs<P, A>(d: SelectData<P>, k: ClauseKind, partsToSql: seq<P> -> Fragment<A>): seq<A>
  {
    match k
    case WhereClause => partsToSql(d.whereParts).args
    case HavingClause => partsToSql(d.havingParts).args
    case _ => []
  }

  /** One written clause. */
  datatype Clause<A> = Clause(kind: ClauseKind, body: string, args: seq<A>)

  /** Clause `k` as written for `d`: one clause if its field is set, none otherwise. */
  function Piece<P, A>(d: SelectData<P>, k: ClauseKind, partsToSql: seq<P> -> Fragment<A>): seq<Clause<A>>
  {
    if IsSet(d, k) then [Clause(k, Body(d, k, partsToSql), ClauseArgs(d, k, partsToSql))] else []
  }

  /** The clauses among the first `n` kinds of `ClauseOrder` that `d` sets, in that order. */
  function Emitted<P, A>(d: SelectData<P>, n: nat, partsToSql: seq<P> -> Fragment<A>): seq<Clause<A>>
    requires n <= |ClauseOrder|
  {
    if n == 0 then [] else Emitted(d, n - 1, partsToSql) + Piece(d, ClauseOrder[n - 1], partsToSql)
  }

  /** The optional clauses of the statement, in the order they are written. */
  function Clauses<P, A>(d: SelectData<P>, partsToSql: seq<P> -> Fragment<A>): seq<Clause<A>>
  {
    Emitted(d, |ClauseOrder|, partsToSql)
  }

  /** `SELECT `, then `DISTINCT ` if the flag is set, then the columns joined with ", ". */
  function Head<P>(d: SelectData<P>): string
  {
    "SELECT " + (if d.distinct then "DISTINCT " else "") + Join(d.columns, ", ")
  }

  /** The text of one written clause: its keyword followed by its body. */
  function ClauseText<A>(c: Clause<A>): string
  {
    Keyword(c.kind) + c.body
  }

  /** The text of a list of clauses, clause by clause. */
  function Flatten<A>(cs: seq<Clause<A>>): string
  {
    if |cs| == 0 then "" else ClauseText(cs[0]) + Flatten(cs[1..])
  }

  /** The arguments of a list of clauses, clause by clause. */
  function CollectArgs<A>(cs: seq<Clause<A>>): seq<A>
  {
    if |cs| == 0 then [] else cs[0].args + CollectArgs(cs[1..])
  }

  /** What rendering `d` returns: an error with no text and no arguments when there is no
      column; otherwise the head and the clauses, with the clauses' arguments in order. */
  function Render<P, A>(d: SelectData<P>, partsToSql: seq<P> -> Fragment<A>): Output<A>
  {
    if |d.columns| == 0 then Output("", [], Some(MissingResultColumns))
    else
      var cs := Clauses(d, partsToSql);
      Output(Head(d) + Flatten(cs), CollectArgs(cs), None)
  }

  /** The text clause `k` adds for `d`: its keyword and body, or nothing when unset. This is
      the text of `Piece(d, k, partsToSql)` (see `SectionIsPiece`), written out directly so that
      the contract of the step-by-step writer `WriteClause` speaks of strings, not clause lists. */
  function Section<P, A>(d: SelectData<P>, k: ClauseKind, partsToSql: seq<P> -> Fragment<A>): string
  {
    if IsSet(d, k) then Keyword(k) + Body(d, k, partsToSql) else ""
  }

  /** The arguments clause `k` adds for `d`: none when it is unset. This is the arguments of
      `Piece(d, k, partsToSql)`, written out directly for the same reason as `Section`. */
  function SectionArgs<P, A>(d: SelectData<P>, k: ClauseKind, partsToSql: seq<P> -> Fragment<A>): seq<A>
  {
    if IsSet(d, k) then ClauseArgs(d, k, partsToSql) else []
  }

  /** A kind's section is the text and the arguments of the clause list it contributes. */
  lemma SectionIsPiece<P, A>(d: SelectData<P>, k: ClauseKind, partsToSql: seq<P> -> Fragment<A>)
    ensures Flatten(Piece(d, k, partsToSql)) == Section(d, k, partsToSql)
    ensures CollectArgs(Piece(d, k, partsToSql)) == SectionArgs(d, k, partsToSql)
  {
    var piece := Piece(d, k, partsToSql);
    if |piece| > 0 {
      assert piece[1..] == [];
    }
  }

  /** The text written once the head and the first `n` kinds of clause are done. */
  ghost function TextUpTo<P, A>(d: SelectData<P>, n: nat, partsToSql: seq<P> -> Fragment<A>): string
    requires n <= |ClauseOrder|
  {
    Head(d) + Flatten(Emitted(d, n, partsToSql))
  }

  /** `selectData.ToSql`: checks that there is a column, then writes the head and each
      optional clause in the fixed order into a text accumulator, appending the WHERE and
      HAVING arguments to an argument accumulator as it goes. */
  method ToSql<P, A>(d: SelectData<P>, partsToSql: seq<P> -> Fragment<A>)
    returns (sqlStr: string, args: seq<A>, err: Option<RenderError>)
    ensures err.Some? <==> |d.columns| == 0
    ensures err.Some? ==> sqlStr == "" && args == []
    ensures Output(sqlStr, args, err) == Render(d, partsToSql)
  {
    if |d.columns| == 0 {
      sqlStr, args, err := "", [], Some(MissingResultColumns);
      return;
    }
    err := None;
    args := [];
    var sql := "SELECT ";
    if d.distinct {
      sql := sql + "DISTINCT ";
    }
    sql := sql + Join(d.columns, ", ");
    ghost var s0 := sql;
    assert s0 == Head(d);

    sql, args := WriteClause(sql, args, d, FromClause, partsToSql);
    ghost var s1 := sql;
    sql, args := WriteClause(sql, args, d, WhereClause, partsToSql);
    ghost var s2 := sql;
    sql, args := WriteClause(sql, args, d, GroupByClause, partsToSql);
    ghost var s3 := sql;
    sql, args := WriteClause(sql, args, d, HavingClause, partsToSql);
    ghost var s4 := sql;
    sql, args := WriteClause(sql, args, d, OrderByClause, partsToSql);
    ghost var s5 := sql;
    sql, args := WriteClause(sql, args, d, LimitClause, partsToSql);
    ghost var s6 := sql;
    sql, args := WriteClause(sql, args, d, OffsetClause, partsToSql);

    RenderFromSections(d, partsToSql, s0, s1, s2, s3, s4, s5, s6, sql, args);
    sqlStr := sql;
  }

  /** One optional clause as `ToSql` writes it: nothing when its field is unset; otherwise its
      keyword, then its body, with the clause's arguments appended to `args`. */
  method WriteClause<P, A>(sql: string, args: seq<A>, d: SelectData<P>, k: ClauseKind,
                           partsToSql: seq<P> -> Fragment<A>)
    returns (sql': string, args': seq<A>)
    ensures sql' == sql + Section(d, k, partsToSql)
    ensures args' == args + SectionArgs(d, k, partsToSql)
  {
    sql', args' := sql, args;
    if IsSet(d, k) {
      sql' := sql' + Keyword(k);
      sql' := sql' + Body(d, k, partsToSql);
      args' := args' + ClauseArgs(d, k, partsToSql);
      ConcatAssoc(sql, Keyword(k), Body(d, k, partsToSql));
    } else {
      AppendEmpty(sql);
    }
  }

  lemma {:induction false} FlattenAppend<A>(xs: seq<Clause<A>>, ys: seq<Clause<A>>)
    ensures Flatten(xs + ys) == Flatten(xs) + Flatten(ys)
  {
    if |xs| == 0 {
      assert xs + ys == ys;
      assert Flatten(xs) + Flatten(ys) == Flatten(ys);
    } else {
      var zs := xs + ys;
      assert zs[0] == xs[0];
      assert zs[1..] == xs[1..] + ys;
      FlattenAppend(xs[1..], ys);
      ConcatAssoc(ClauseText(xs[0]), Flatten(xs[1..]), Flatten(ys));
    }
  }

  lemma {:induction false} CollectArgsAppend<A>(xs: seq<Clause<A>>, ys: seq<Clause<A>>)
    ensures CollectArgs(xs + ys) == CollectArgs(xs) + CollectArgs(ys)
  {
    if |xs| == 0 {
      assert xs + ys == ys;
    } else {
      assert (xs + ys)[1..] == xs[1..] + ys;
      CollectArgsAppend(xs[1..], ys);
      assert CollectArgs(xs + ys) == xs[0].args + (CollectArgs(xs[1..]) + CollectArgs(ys));
    }
  }

  /** Writing the next kind of clause appends that clause's section to the text. */
  lemma StepText<P, A>(d: SelectData<P>, n: nat, partsToSql: seq<P> -> Fragment<A>)
    requires n < |ClauseOrder|
    ensures TextUpTo(d, n + 1, partsToSql) == TextUpTo(d, n, partsToSql) + Section(d, ClauseOrder[n], partsToSql)
  {
    var before := Emitted(d, n, partsToSql);
    var piece := Piece(d, ClauseOrder[n], partsToSql);
    FlattenAppend(before, piece);
    SectionIsPiece(d, ClauseOrder[n], partsToSql);
    ConcatAssoc(Head(d), Flatten(before), Flatten(piece));
  }

  /** Writing the next kind of clause appends that clause's arguments to the argument list. */
  lemma StepArgs<P, A>(d: SelectData<P>, n: nat, partsToSql: seq<P> -> Fragment<A>)
    requires n < |ClauseOrder|
    ensures CollectArgs(Emitted(d, n + 1, partsToSql))
      == CollectArgs(Emitted(d, n, partsToSql)) + SectionArgs(d, ClauseOrder[n], partsToSql)
  {
    var before := Emitted(d, n, partsToSql);
    var piece := Piece(d, ClauseOrder[n], partsToSql);
    CollectArgsAppend(before, piece);
    SectionIsPiece(d, ClauseOrder[n], partsToSql);
  }

  /** The rendered text of a statement with a column is its head followed by each kind's
      section in the fixed order FROM, WHERE, GROUP BY, HAVING, ORDER BY, LIMIT, OFFSET. */
  lemma RenderSections<P, A>(d: SelectData<P>, partsToSql: seq<P> -> Fragment<A>)
    requires |d.columns| > 0
    ensures Render(d, partsToSql).sql ==
      Head(d) + Section(d, FromClause, partsToSql) + Section(d, WhereClause, partsToSql)
      + Section(d, GroupByClause, partsToSql) + Section(d, HavingClause, partsToSql)
      + Section(d, OrderByClause, partsToSql) + Section(d, LimitClause, partsToSql)
      + Section(d, OffsetClause, partsToSql)
  {
    assert TextUpTo(d, 0, partsToSql) == Head(d);
    StepText(d, 0, partsToSql);
    StepText(d, 1, partsToSql);
    StepText(d, 2, partsToSql);
    StepText(d, 3, partsToSql);
    StepText(d, 4, partsToSql);
    StepText(d, 5, partsToSql);
    StepText(d, 6, partsToSql);
  }

  /** The arguments of a statement with a column are each kind's section arguments, in the
      fixed order of the clauses. */
  lemma ArgsSections<P, A>(d: SelectData<P>, partsToSql: seq<P> -> Fragment<A>)
    requires |d.columns| > 0
    ensures Render(d, partsToSql).args ==
      [] + SectionArgs(d, FromClause, partsToSql) + SectionArgs(d, WhereClause, partsToSql)
      + SectionArgs(d, GroupByClause, partsToSql) + SectionArgs(d, HavingClause, partsToSql)
      + SectionArgs(d, OrderByClause, partsToSql) + SectionArgs(d, LimitClause, partsToSql)
      + SectionArgs(d, OffsetClause, partsToSql)
  {
    assert CollectArgs(Emitted(d, 0, partsToSql)) == [];
    StepArgs(d, 0, partsToSql);
    StepArgs(d, 1, partsToSql);
    StepArgs(d, 2, partsToSql);
    StepArgs(d, 3, partsToSql);
    StepArgs(d, 4, partsToSql);
    StepArgs(d, 5, partsToSql);
    StepArgs(d, 6, partsToSql);
  }

  /** The arguments of a statement with a column are the WHERE fragment's arguments followed
      by the HAVING fragment's; no other clause contributes any, so they are empty when both
      predicate lists are. */
  lemma RenderArgs<P, A>(d: SelectData<P>, partsToSql: seq<P> -> Fragment<A>)
    requires |d.columns| > 0
    ensures Render(d, partsToSql).args ==
      (if |d.whereParts| > 0 then partsToSql(d.whereParts).args else [])
      + (if |d.havingParts| > 0 then partsToSql(d.havingParts).args else [])
    ensures |d.whereParts| == 0 && |d.havingParts| == 0 ==> Render(d, partsToSql).args == []
  {
    ArgsUpTo(d, |ClauseOrder|, partsToSql);
  }

  /** The arguments of the clauses among the first `n` kinds: those of WHERE once it is
      among them, then those of HAVING once it is among them. */
  lemma {:induction false} ArgsUpTo<P, A>(d: SelectData<P>, n: nat, partsToSql: seq<P> -> Fragment<A>)
    requires n <= |ClauseOrder|
    ensures CollectArgs(Emitted(d, n, partsToSql)) ==
      (if n > Rank(WhereClause) then SectionArgs(d, WhereClause, partsToSql) else [])
      + (if n > Rank(HavingClause) then SectionArgs(d, HavingClause, partsToSql) else [])
  {
    if n > 0 {
      ArgsUpTo(d, n - 1, partsToSql);
      StepArgs(d, n - 1, partsToSql);
      var k := ClauseOrder[n - 1];
      if k != WhereClause && k != HavingClause {
        assert SectionArgs(d, k, partsToSql) == [];
      }
    }
  }

  /** Text written section by section in the fixed order, starting from the head, together
      with the WHERE arguments followed by the HAVING arguments, is the rendered output. */
  lemma RenderFromSections<P, A>(d: SelectData<P>, partsToSql: seq<P> -> Fragment<A>,
                                 s0: string, s1: string, s2: string, s3: string,
                                 s4: string, s5: string, s6: string, s7: string, args: seq<A>)
    requires |d.columns| > 0
    requires s0 == Head(d)
    requires s1 == s0 + Section(d, FromClause, partsToSql)
    requires s2 == s1 + Section(d, WhereClause, partsToSql)
    requires s3 == s2 + Section(d, GroupByClause, partsToSql)
    requires s4 == s3 + Section(d, HavingClause, partsToSql)
    requires s5 == s4 + Section(d, OrderByClause, partsToSql)
    requires s6 == s5 + Section(d, LimitClause, partsToSql)
    requires s7 == s6 + Section(d, OffsetClause, partsToSql)
    requires args == [] + SectionArgs(d, FromClause, partsToSql) + SectionArgs(d, WhereClause, partsToSql)
      + SectionArgs(d, GroupByClause, partsToSql) + SectionArgs(d, HavingClause, partsToSql)
      + SectionArgs(d, OrderByClause, partsToSql) + SectionArgs(d, LimitClause, partsToSql)
      + SectionArgs(d, OffsetClause, partsToSql)
    ensures Render(d, partsToSql) == Output(s7, args, None)
  {
    RenderSections(d, partsToSql);
    ArgsSections(d, partsToSql);
  }

  /** `ClauseOrder` lists each kind once, at the position given by its rank. */
  lemma RankIsPosition(k: ClauseKind)
    ensures Rank(k) < |ClauseOrder| && ClauseOrder[Rank(k)] == k
    ensures forall m :: 0 <= m < |ClauseOrder| ==> Rank(ClauseOrder[m]) == m
  {
  }

  /** Each clause written among the first `n` kinds is of one of those kinds, its field is
      set, and it carries that field's body and arguments. */
  lemma {:induction false} EmittedFaithful<P, A>(d: SelectData<P>, n: nat, partsToSql: seq<P> -> Fragment<A>)
    requires n <= |ClauseOrder|
    ensures forall i :: 0 <= i < |Emitted(d, n, partsToSql)| ==>
      var c := Emitted(d, n, partsToSql)[i];
      Rank(c.kind) < n && IsSet(d, c.kind)
      && c.body == Body(d, c.kind, partsToSql) && c.args == ClauseArgs(d, c.kind, partsToSql)
  {
    if n > 0 {
      EmittedFaithful(d, n - 1, partsToSql);
      RankIsPosition(ClauseOrder[n - 1]);
    }
  }

  /** The clauses written among the first `n` kinds come in strictly increasing rank. */
  lemma {:induction false} EmittedOrdered<P, A>(d: SelectData<P>, n: nat, partsToSql: seq<P> -> Fragment<A>)
    requires n <= |ClauseOrder|
    ensures forall i, j :: 0 <= i < j < |Emitted(d, n, partsToSql)| ==>
      Rank(Emitted(d, n, partsToSql)[i].kind) < Rank(Emitted(d, n, partsToSql)[j].kind)
  {
    if n > 0 {
      EmittedOrdered(d, n - 1, partsToSql);
      EmittedFaithful(d, n - 1, partsToSql);
      RankIsPosition(ClauseOrder[n - 1]);
    }
  }

  /** Every kind among the first `n` whose field is set is written. */
  lemma {:induction false} EmittedComplete<P, A>(d: SelectData<P>, n: nat, partsToSql: seq<P> -> Fragment<A>, k: ClauseKind)
    requires n <= |ClauseOrder|
    requires Rank(k) < n && IsSet(d, k)
    ensures exists i :: 0 <= i < |Emitted(d, n, partsToSql)| && Emitted(d, n, partsToSql)[i].kind == k
  {
    var before := Emitted(d, n - 1, partsToSql);
    var cs := Emitted(d, n, partsToSql);
    assert cs == before + Piece(d, ClauseOrder[n - 1], partsToSql);
    RankIsPosition(k);
    if Rank(k) == n - 1 {
      assert cs[|before|].kind == k;
    } else {
      EmittedComplete(d, n - 1, partsToSql, k);
      var i :| 0 <= i < |before| && before[i].kind == k;
      assert cs[i].kind == k;
    }
  }

  /** A clause is written exactly when the field or list backing it is non-empty. */
  lemma ClausePresence<P, A>(d: SelectData<P>, partsToSql: seq<P> -> Fragment<A>, k: ClauseKind)
    ensures (exists i :: 0 <= i < |Clauses(d, partsToSql)| && Clauses(d, partsToSql)[i].kind == k)
      <==> IsSet(d, k)
  {
    var cs := Clauses(d, partsToSql);
    assert cs == Emitted(d, |ClauseOrder|, partsToSql);
    EmittedFaithful(d, |ClauseOrder|, partsToSql);
    RankIsPosition(k);
    if IsSet(d, k) {
      EmittedComplete(d, |ClauseOrder|, partsToSql, k);
      var i :| 0 <= i < |cs| && cs[i].kind == k;
    }
  }

  /** The clauses are written in the fixed order FROM, WHERE, GROUP BY, HAVING, ORDER BY,
      LIMIT, OFFSET, so no kind appears twice; each carries its own field's body and arguments. */
  lemma ClausesInOrder<P, A>(d: SelectData<P>, partsToSql: seq<P> -> Fragment<A>)
    ensures forall i, j :: 0 <= i < j < |Clauses(d, partsToSql)| ==>
      Rank(Clauses(d, partsToSql)[i].kind) < Rank(Clauses(d, partsToSql)[j].kind)
    ensures forall i :: 0 <= i < |Clauses(d, partsToSql)| ==>
      var c := Clauses(d, partsToSql)[i];
      IsSet(d, c.kind) && c.body == Body(d, c.kind, partsToSql) && c.args == ClauseArgs(d, c.kind, partsToSql)
  {
    EmittedOrdered(d, |ClauseOrder|, partsToSql);
    EmittedFaithful(d, |ClauseOrder|, partsToSql);
  }

  /** The clauses depend only on the clause fields: neither the DISTINCT flag nor the result
      columns change which clauses are written or what they hold. */
  lemma {:induction false} EmittedIgnoresHead<P, A>(d1: SelectData<P>, d2: SelectData<P>, n: nat,
                                                    partsToSql: seq<P> -> Fragment<A>)
    requires n <= |ClauseOrder|
    requires d1.from == d2.from && d1.whereParts == d2.whereParts && d1.groupBys == d2.groupBys
    requires d1.havingParts == d2.havingParts && d1.orderBys == d2.orderBys
    requires d1.limit == d2.limit && d1.offset == d2.offset
    ensures Emitted(d1, n, partsToSql) == Emitted(d2, n, partsToSql)
  {
    if n > 0 {
      EmittedIgnoresHead(d1, d2, n - 1, partsToSql);
      var k := ClauseOrder[n - 1];
      assert IsSet(d1, k) == IsSet(d2, k);
      assert Body(d1, k, partsToSql) == Body(d2, k, partsToSql);
      assert ClauseArgs(d1, k, partsToSql) == ClauseArgs(d2, k, partsToSql);
    }
  }

  /** Where clause `i` of `cs` begins in their text. */
  function ClauseStart<A>(cs: seq<Clause<A>>, i: nat): nat
    requires i <= |cs|
  {
    |Flatten(cs[..i])|
  }

  lemma FlattenAt<A>(cs: seq<Clause<A>>, i: nat)
    requires i < |cs|
    ensures Flatten(cs) == Flatten(cs[..i]) + (ClauseText(cs[i]) + Flatten(cs[i + 1..]))
  {
    assert cs == cs[..i] + cs[i..];
    FlattenAppend(cs[..i], cs[i..]);
    assert cs[i..][1..] == cs[i + 1..];
  }

  lemma ClauseStartsIncrease<A>(cs: seq<Clause<A>>, i: nat, j: nat)
    requires i < j <= |cs|
    ensures ClauseStart(cs, i) < ClauseStart(cs, j)
  {
    assert cs[..j] == cs[..i] + cs[i..j];
    FlattenAppend(cs[..i], cs[i..j]);
    assert cs[i..j][1..] == cs[i + 1..j];
    assert |Keyword(cs[i].kind)| > 0;
  }

  /** In the rendered text, each clause's keyword stands where that clause begins after the
      head, and the clauses begin at strictly increasing positions, so the keywords appear in
      the text in the order of the clause list. */
  lemma KeywordsInText<P, A>(d: SelectData<P>, partsToSql: seq<P> -> Fragment<A>)
    requires |d.columns| > 0
    ensures var cs := Clauses(d, partsToSql); var sql := Render(d, partsToSql).sql;
      && Head(d) <= sql
      && (forall i :: 0 <= i < |cs| ==>
            |Head(d)| + ClauseStart(cs, i) + |Keyword(cs[i].kind)| <= |sql|
            && sql[|Head(d)| + ClauseStart(cs, i)..][..|Keyword(cs[i].kind)|] == Keyword(cs[i].kind))
      && (forall i, j :: 0 <= i < j < |cs| ==> ClauseStart(cs, i) < ClauseStart(cs, j))
  {
    var cs := Clauses(d, partsToSql);
    var head := Head(d);
    var sql := head + Flatten(cs);
    assert Render(d, partsToSql).sql == sql;
    forall i | 0 <= i < |cs|
      ensures |head| + ClauseStart(cs, i) + |Keyword(cs[i].kind)| <= |sql|
      ensures sql[|head| + ClauseStart(cs, i)..][..|Keyword(cs[i].kind)|] == Keyword(cs[i].kind)
    {
      FlattenAt(cs, i);
      var kw := Keyword(cs[i].kind);
      var before := Flatten(cs[..i]);
      var after := Flatten(cs[i + 1..]);
      ConcatAssoc(head, before, ClauseText(cs[i]) + after);
      ConcatAssoc(kw, cs[i].body, after);
      assert sql == (head + before) + (kw + (cs[i].body + after));
      assert sql[|head + before|..] == kw + (cs[i].body + after);
    }
    forall i, j | 0 <= i < j < |cs| ensures ClauseStart(cs, i) < ClauseStart(cs, j) {
      ClauseStartsIncrease(cs, i, j);
    }
  }
}
