/** The accumulated state of a SELECT statement (`selectData` in select.go). */
module SelectState {

  /** What the predicate renderer (`wherePartsToSql`) gives for a list of predicate parts:
      the text of the parts joined together and their bound arguments, in order. */
  datatype Fragment<A> = Fragment(sql: string, args: seq<A>)

  /** The statement's clauses as plain data. `P` is the type of one WHERE/HAVING predicate
      part. An empty `from`, `limit` or `offset` means the clause is unset. */
  datatype SelectData<P> = SelectData(
    distinct: bool,
    columns: seq<string>,
    from: string,
    whereParts: seq<P>,
    groupBys: seq<string>,
    havingParts: seq<P>,
    orderBys: seq<string>,
    limit: string,
    offset: string)

  /** The fields of `SelectData`, to say which one a builder call touches. */
  datatype Field =
    | DistinctField | ColumnsField | FromField | WhereField | GroupByField
    | HavingField | OrderByField | LimitField | OffsetField

  /** `a` and `b` agree on every field except possibly `f`. */
  ghost predicate SameExcept<P>(a: SelectData<P>, b: SelectData<P>, f: Field)
  {
    && (f == DistinctField || a.distinct == b.distinct)
    && (f == ColumnsField || a.columns == b.columns)
    && (f == FromField || a.from == b.from)
    && (f == WhereField || a.whereParts == b.whereParts)
    && (f == GroupByField || a.groupBys == b.groupBys)
    && (f == HavingField || a.havingParts == b.havingParts)
    && (f == OrderByField || a.orderBys == b.orderBys)
    && (f == LimitField || a.limit == b.limit)
    && (f == OffsetField || a.offset == b.offset)
  }
}
