# SELECT statement builder, modelled in Dafny

This project models the core of the Go file `select.go` of a SQL builder library:
the `selectData` record that accumulates a SELECT statement, its renderer
`selectData.ToSql`, and the immutable `selectBuilder`. `Select` starts from the empty state
with the given columns; `Distinct`, `Columns`, `From`, `Where`, `GroupBy`, `Having`,
`OrderBy`, `Limit` and `Offset` each return a new state that differs from the old one in one
field; the builder's `ToSql` renders the state to text, arguments and an error.

Files and modules:

- `select_state.dfy` (`SelectState`): the `SelectData` record, the predicate renderer's
  result `Fragment`, and `SameExcept`, which says that two states agree on every field but one.
- `select_render.dfy` (`SelectRender`): the renderer. `Render` is a pure specification: an
  error when there is no column; otherwise a head (`SELECT `, then `DISTINCT ` if the flag is
  set, then the columns joined with `", "`) followed by the list of written clauses, in the
  fixed order FROM, WHERE, GROUP BY, HAVING, ORDER BY, LIMIT, OFFSET. `ToSql` is the
  step-by-step renderer, with a text accumulator and an argument accumulator, and it is proved
  equal to `Render`. The lemmas state which clauses are present, their order, where their
  keywords stand in the text, and which arguments come back.
- `select_builder.dfy` (`SelectBuilder`): the builder calls as functions on the state, and
  the laws relating them to each other and to the rendered output.
- `strings.dfy` (`Strings`): `strings.Join` and its laws.
- `decimal.dfy` (`Decimal`): the `%d` text of an unsigned 64-bit number, with round trips
  in both directions.

The predicate type `P` and the argument type `A` are type parameters. The predicate renderer
`wherePartsToSql` is a parameter `partsToSql: seq<P> -> Fragment<A>` of the renderer. Being a
Dafny function, it is total and deterministic: it cannot fail, and it gives the same result
for the same parts. Go calls it once per clause (select.go:45, 57) and uses that call's text
and arguments; the model evaluates it once for the text (`Body`) and once for the arguments
(`ClauseArgs`), and the two agree only because the function is deterministic.

## Model

| member | source | states |
|---|---|---|
| `SelectRender.ToSql` | select.go:22-79 | Fails exactly when there is no column, and then returns no text and no arguments. Otherwise it returns exactly `Render`: the head, then each set clause in the fixed order, then the WHERE arguments followed by the HAVING arguments. |
| `SelectRender.WriteClause` | select.go:38-75 | One optional-clause block: it appends the keyword and body exactly when the clause's field is non-empty, together with that clause's arguments, and otherwise changes nothing. |
| `SelectRender.RenderSections` | select.go:30-75 | The rendered text is `SELECT `, then `DISTINCT ` when the flag is set, then the columns joined by `", "`, then each kind's section (keyword and body, or nothing when unset) in the order FROM, WHERE, GROUP BY, HAVING, ORDER BY, LIMIT, OFFSET. |
| `SelectRender.ArgsSections` | select.go:43-60 | The rendered arguments are each kind's section arguments, concatenated in clause order. |
| `SelectRender.RenderArgs` | select.go:43-60 | The arguments are the WHERE fragment's arguments, when there is a WHERE part, followed by the HAVING fragment's, when there is a HAVING part. They are empty when there are neither. |
| `SelectRender.ArgsUpTo` | select.go:38-75 | After the first `n` kinds of clause, the arguments collected are WHERE's once it has been passed, then HAVING's once it has been passed. |
| `SelectRender.ClausePresence` | select.go:38-75 | A clause of a given kind is written if and only if the field or list behind it is non-empty. |
| `SelectRender.ClausesInOrder` | select.go:38-75 | The written clauses have strictly increasing rank in the fixed order, so no kind appears twice. Each clause carries its own field's body and arguments. |
| `SelectRender.EmittedFaithful` | select.go:38-75 | Each clause among the first `n` kinds is of one of those kinds, its field is set, and it holds that field's body and arguments. |
| `SelectRender.EmittedOrdered` | select.go:38-75 | The clauses among the first `n` kinds come in strictly increasing rank. |
| `SelectRender.EmittedComplete` | select.go:38-75 | Every kind among the first `n` whose field is set has a clause. |
| `SelectRender.KeywordsInText` | select.go:30-75 | The head is a prefix of the text. Each clause's keyword stands exactly where that clause begins after the head, and the clauses begin at strictly increasing positions. |
| `SelectRender.EmittedIgnoresHead` | select.go:38-75 | Neither the DISTINCT flag nor the columns affect which clauses are written or what they hold. |
| `SelectRender.SectionIsPiece` | select.go:38-75 | A kind's section text and arguments are exactly the text and arguments of the clause list that kind contributes: one clause when its field is set, none otherwise. |
| `SelectRender.StepText` | select.go:38-75 | Each clause block appends its kind's section to the text written so far. |
| `SelectRender.StepArgs` | select.go:43-60 | Each clause block appends its kind's section arguments to the arguments collected so far. |
| `SelectRender.FlattenAppend` | select.go:38-75 | The text of two clause lists written one after the other is the concatenation of their texts. |
| `SelectRender.CollectArgsAppend` | select.go:43-60 | The arguments of two clause lists one after the other are the concatenation of their arguments. |
| `Strings.JoinAppend` | select.go:36 | Joining two non-empty lists back to back is joining each and putting one separator between them. |
| `Strings.JoinEnds` | select.go:36 | A non-empty join begins with the first element and ends with the last. |
| `Strings.JoinLength` | select.go:36 | A join is as long as its elements plus one separator between each pair of neighbours. |
| `Decimal.FormatUint` | select.go:123 | `%d` text: at least one digit, only digits, and no leading zero; it begins with `0` exactly when the number is zero. |
| `Decimal.ParseFormat` | select.go:123 | Reading back the `%d` text of `n` gives `n`. |
| `Decimal.FormatParse` | select.go:123 | Every canonical digit string is the `%d` text of the number it denotes. |
| `Decimal.ParsePositive` | select.go:123 | A canonical digit string other than `0` denotes a positive number. |
| `Decimal.FormatInjective` | select.go:123 | Different numbers have different `%d` texts. |
| `SelectBuilder.Empty` | select.go:83 | The shared empty state has no DISTINCT flag, no columns and no clause set. |
| `SelectBuilder.Select` | select.go:85-87 | `Select(cs)` is the empty state with columns `cs`. |
| `SelectBuilder.ToSql` | select.go:89-92 | The builder renders its state exactly as `selectData.ToSql` does, error case included. |
| `SelectBuilder.Distinct` | select.go:94-96 | Sets the flag and changes no other field. |
| `SelectBuilder.Columns` | select.go:98-100 | Appends the given columns after the existing ones and changes no other field. |
| `SelectBuilder.From` | select.go:102-104 | Replaces the FROM text and changes no other field. |
| `SelectBuilder.Where` | select.go:106-108 | Appends exactly one WHERE part, last, and changes no other field. |
| `SelectBuilder.GroupBy` | select.go:110-112 | Appends the given GROUP BY expressions and changes no other field. |
| `SelectBuilder.Having` | select.go:114-116 | Appends exactly one HAVING part, last, and changes no other field. |
| `SelectBuilder.OrderBy` | select.go:118-120 | Appends the given ORDER BY expressions and changes no other field. |
| `SelectBuilder.Limit` | select.go:122-124 | Stores canonical decimal text that reads back as the number and is never empty, so the LIMIT clause is always set. No other field changes. |
| `SelectBuilder.Offset` | select.go:126-128 | Stores canonical decimal text that reads back as the number and is never empty, so the OFFSET clause is always set. No other field changes. |
| `SelectBuilder.SelectNothingFails` | select.go:23-26 | `Select(cs)` fails to render exactly when `cs` is empty, and then returns no text and no arguments. |
| `SelectBuilder.DistinctIdempotent` | select.go:94-96 | Setting DISTINCT twice is setting it once. |
| `SelectBuilder.DistinctInsertsKeyword` | select.go:30-36 | DISTINCT inserts `DISTINCT ` right after `SELECT ` and leaves the rest of the text and the arguments as they were. |
| `SelectBuilder.DistinctText` | select.go:30-36 | A head without the flag and the same head with `DISTINCT ` differ only by `DISTINCT ` after `SELECT `. |
| `SelectBuilder.ColumnsCompose` | select.go:98-100 | `Columns(xs)` then `Columns(ys)` is `Columns(xs + ys)`. |
| `SelectBuilder.ColumnsRenderJoined` | select.go:36 | Added columns follow the existing ones after one `", "`, and the clauses are unchanged. |
| `SelectBuilder.FromLastWins` | select.go:102-104 | The last FROM call wins. |
| `SelectBuilder.FromRendered` | select.go:38-41 | There is a FROM clause if and only if the text given to `From` is non-empty, and its body is that text. |
| `SelectBuilder.WhereRendered` | select.go:43-48 | After `Where`, there is a WHERE clause holding the rendering of all parts so far, the new one last, with its arguments. |
| `SelectBuilder.HavingRendered` | select.go:55-60 | After `Having`, there is a HAVING clause holding the rendering of all parts so far, the new one last, with its arguments. |
| `SelectBuilder.GroupByCompose` | select.go:110-112 | `GroupBy(xs)` then `GroupBy(ys)` is `GroupBy(xs + ys)`. |
| `SelectBuilder.OrderByCompose` | select.go:118-120 | `OrderBy(xs)` then `OrderBy(ys)` is `OrderBy(xs + ys)`. |
| `SelectBuilder.LimitLastWins` | select.go:122-124 | The last LIMIT call wins. |
| `SelectBuilder.OffsetLastWins` | select.go:126-128 | The last OFFSET call wins. |
| `SelectBuilder.LimitRendered` | select.go:67-70 | After `Limit(n)` there is a LIMIT clause whose body is the decimal text of `n` and which has no arguments; `Limit(0)` writes `LIMIT 0`. |
| `SelectBuilder.OffsetRendered` | select.go:72-75 | After `Offset(n)` there is an OFFSET clause whose body is the decimal text of `n` and which has no arguments; `Offset(0)` writes `OFFSET 0`. |
| `SelectBuilder.TypicalQuery` | select.go:85-128 | Builds `Select("id", "name")`, then `From("users")`, `OrderBy("name")`, `Where(p)` and `Limit(10)`. The result renders as `SELECT id, name FROM users WHERE <p> ORDER BY name LIMIT 10`, with `p`'s arguments. |
| `SelectBuilder.TypicalRender` | select.go:22-79 | The state built in `TypicalQuery` renders to that text and those arguments. |

## Left out

- The `lann/builder` library (`builder.Register`, `Set`, `Extend`, `Append`, `GetStruct`) works by reflection over field names. A builder is modelled directly as the `SelectData` value it holds, and each call as the record update the library performs.
- `newWherePart`, which turns `Where`/`Having` arguments into a predicate part, is not part of this model. `Where` and `Having` take an already-built part of type `P`.
- `wherePartsToSql` returns only text and arguments (select.go:45, 57), so the only error `ToSql` reports is the missing-column one; errors raised while rendering a predicate are not modelled.
- `wherePartsToSql` is a total, deterministic function parameter with no further properties assumed. So the model does not capture how parts are joined with `AND`, and it does not relate placeholders in the text to the argument count.
- The error is the single value `MissingResultColumns`; the text of Go's error message is not modelled.
- `bytes.Buffer` is modelled as a string value that each write extends.
- `WriteClause`: each optional clause block of `ToSql` is written once, generically over the clause kind, with the keyword, body and arguments given by `Keyword`, `Body` and `ClauseArgs`. Go writes the seven blocks out one by one.
- `Render` does not promise that `DISTINCT ` appears in the text only when the flag is set. Columns are verbatim text and may themselves begin with `DISTINCT `. Presence and order are therefore stated on the clause list and on keyword positions, not by searching the text.
- Go's `uint64` is the newtype `u64`; since `%d` never wraps, no overflow is involved.
