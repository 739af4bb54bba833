# A verified model of protoc-gen-go-jet

protoc-gen-go-jet turns annotated proto messages into PostgreSQL tables, row mappers and AIP-style
list endpoints. This project models the parts of it whose correctness is not visible from one function
body, and proves what those parts promise. `dafny verify dfyconfig.toml` checks everything.

## What is modelled

**Listing.** A list request (`pkg/aip`, `pkg/aip/jet`) resolves an effective order, opens the page token,
builds a WHERE clause that skips the rows already seen, reads one row more than the page holds, trims it,
and mints the next token from the last row kept. `Order`, `Token`, `Schemas`, `Keyset` and `Execute` model
that request branch by branch; `Spelling` says what an order_by string asks for without reference to the
parser; `Sql` gives the expressions it builds their three-valued PostgreSQL meaning. `PagedReads` states the protocol in the abstract: a service whose tokens stand for positions in a strict
order. `Pagination` and `Runs` show that the listing is such a service, and draw the consequences for whole
runs, over an unchanged table and with arbitrary changes between the requests. `Limits` says exactly where
listing stops working. `Backends` shows that what is assumed of the database can be met for every table, and
gives listings that meet all assumptions: one that runs over several pages, and one for each way to stop.

**Filters.** `Filter` compiles AIP-160 expression trees to SQL as `pkg/aip/jet/filter.go` does, gives a
filter its own meaning on a row, and proves that the two agree, NULLs included. `LikeEscape` has the string
argument behind the substring operator. `FilteredListing` puts filter and listing together.

**DDL order.** `Precedence` is the theory of greedy topological orders; `TopoSort` is Kahn's algorithm over
arrays, as `apply_ddl.go` runs it, proved against it.

**Plans and foreign keys.** `Plans` and `ForeignKeys` model table plans as objects that the cross-plan
foreign-key pass fills in place. `ForeignKeyFacts` relates what the pass leaves behind to the unique keys
that the emitted DDL declares. `Completable` says which annotations can be completed, and with what, without
reference to the pass. `DdlOrder` applies the files of resolved plans in dependency order and says
which references find their key in place. `OwnersAndPets` and `TreeNodes` are plans for which these fail.

**Generated code and migrations.** `Mapper` models the conversions that `emit_mapper.go` generates for maps
and lists; `Delta` the structural difference of two table snapshots; `DollarQuote` the quoting of comments.

## What the proofs found

- A boolean column in an order of mixed directions breaks at page two: `directionExpr` has no branch for
  booleans. Resuming is possible exactly when the order has one direction or no boolean column
  (`Pagination.ResumableIff`); `Backends.BooleanOrderStops` gives a listing whose first token is refused.
- `plan.PageSize + 1` is 32-bit arithmetic: at a page size of 2^31 - 1, and only there, the LIMIT is not one
  more than the page size but -2^31 (`Limits.LimitIff`). What a negative LIMIT does is outside the repository;
  `Limits.AtTheLimit` follows the request for a query that fails, one that finds nothing and one that reads on
  without limit. `Backends.LargestPageWraps` gives a schema that allows the size.
- Under an empty effective order every request gets page one again (`Limits.EmptyOrderRepeats`). A listing
  over an unchanged table can be followed to its end exactly when its order is not empty and can be resumed,
  or everything fits on one page (`Limits.EndsIff`); `Backends.EmptyOrderNeverStops` gives one that cannot. A token minted under the empty order is taken for a
  first-page request under every other order (`Schemas.CursorRoundTrip`).
- A foreign key to a `unique` column of a user-scoped table references no key that the table's DDL declares:
  the index is on tenant, user and column, the reference on tenant and column
  (`ForeignKeyFacts.ReferenceIsUniqueKey`, with two such plans in `OwnersAndPets.PetsOfOwners`). The comment in
  `resolve_fk.go` takes such a column to be covered.
- A foreign key to a column that is not unique gives a user-scoped table a unique constraint without the user
  column, so users of one tenant can conflict, although `validatePlan` keeps every declared key apart per user.
  Users are kept apart exactly when no annotation names such a column (`ForeignKeyFacts.UsersApartIff`, with two
  plans for which they are not in `OwnersAndPets.OwnersOfTwoUsers`).
- Foreign keys are part of CREATE TABLE and unique indexes come after it, so a table that references its own
  column finds the key in place only if that is its primary key (`DdlOrder.ReferenceInPlaceIff`, with such a
  table in `TreeNodes.ParentsByCode`).
- A comment that ends in a dollar sign followed by the chosen tag is cut short when the literal is read back,
  although the delimiter does not occur in it (`DollarQuote.ReadBackIff`, `DollarQuote.TrailingDollarIsLost`).
- Undeclared enum numbers are dropped from lists and become zero in maps (`Mapper.StoreAndLoadEnums`,
  `Mapper.StoreAndLoadEnumMap`).
- The delta compares primary keys joined with commas. With a comma in a current column name its primary-key
  line can be missing (`Delta.CommaHidesKeyLine`), but the delta as a whole is never wrongly empty
  (`Delta.DeltaEmptyIff`).

## Parameters

Base64 with JSON, and SHA-256 with base64, are an inverse pair and a digest function; the clock is a `now`
argument; `unicode.IsLetter` with `unicode.IsNumber` is a predicate on characters; PostgreSQL's collation and
LOWER, Go's `strings.ToLower`, `time.ParseDuration`, float formatting and RFC 3339 are functions, the last two
with their parsers read back exactly on doubles and on the years 0 to 9999. The database answers a query with
any beginning of any sorted sequence of the selected rows; its answer to a negative LIMIT is left open. A query
whose list of ORDER BY clauses is empty is taken to be accepted and to answer in any order; the results about the
empty order rest on that. Listing results assume that the ordering columns are not NULL, that they identify a row among those the base condition
selects, that each field's codec suits its column, and that tokens are used within their lifetime.

## Model

| member | source | states |
|---|---|---|
| `Runs.InterleavedRun` | pkg/aip/jet/execute.go:29-88 | In every run that follows tokens, whatever other sessions change between its requests, the sort keys received strictly increase, no row comes twice, each row was a wanted row of the table its request met, and a completed run received every wanted row present throughout |
| `Runs.StaticRun` | pkg/aip/jet/execute.go:42-73 | Over an unchanged table a completed run with page size k returns exactly the n wanted rows, each once, in ORDER BY order, in max(1, ceil(n/k)) requests |
| `Runs.StaticRunExists` | pkg/aip/jet/execute.go:29-73 | Following tokens over an unchanged table never fails and comes to an end |
| `Runs.RowsAsAsked` | pkg/aip/jet/execute.go:90-102 | In every run an earlier row has, on the first ordering field where it differs from a later one, the smaller value if the field is ascending and the larger if it is descending |
| `Runs.ListingIsFaithful` | pkg/aip/jet/execute.go:29-88 | At every point of a run a request answers with the next rows after the position its token stands for, and its own token presents the position they end in to the next request |
| `Runs.OneRequest` | pkg/aip/jet/execute.go:29-73 | A request presented with a current token succeeds with the next rows of the table it meets, and carries a token exactly when more remain |
| `PagedReads.TrimmedPrefix` | pkg/aip/jet/execute.go:47-70 | Reading one row more than the page holds and trimming it gives the first rows, and tells exactly whether more remain |
| `PagedReads.RunFacts` | pkg/aip/jet/execute.go:29-88 | The safety of runs for any service whose tokens stand for positions: increasing, no duplicates, nothing invented, nothing stable missed |
| `PagedReads.UnchangedRun` | pkg/aip/jet/execute.go:29-88 | Completeness and page count of runs over one snapshot, for any such service |
| `PagedReads.RunEnds` | pkg/aip/jet/execute.go:75-88 | Following tokens over one snapshot terminates, because each page with a token leaves fewer rows |
| `PagedReads.RemainingAfter` | pkg/aip/jet/execute.go:75-88 | After a page with more to come, what remains is what remained before without exactly the page's rows |
| `Pagination.PageFrom` | pkg/aip/jet/execute.go:29-73 | One request at a position returns the next rows in order and the token of the last one exactly when more remain |
| `Pagination.SelectedIsRemaining` | pkg/aip/jet/execute.go:42-53 | The WHERE clause of a request selects exactly the wanted rows strictly after the cursor |
| `Pagination.CursorIsKey` | pkg/aip/jet/schema.go:286-296 | The cursor of a row can be encoded and, once decoded, is the row's own sort key |
| `Pagination.ResumableIff` | pkg/aip/jet/execute.go:280-313 | The condition for a row's cursor can be built exactly when the order has one direction or no boolean column |
| `Pagination.PlanAt` | pkg/aip/jet/plan.go:11-48 | A current token minted by this listing is accepted and yields the cursor of the row it was minted for |
| `Pagination.ForeignToken` | pkg/aip/jet/plan.go:20-47 | A token of one listing is accepted by another over the same schema exactly when it has not expired and the other has the same effective order and a filter of the same hash |
| `Backends.BackendExists` | pkg/aip/jet/execute.go:47-61 | For every table there is a backend that answers every query as assumed, so the listing results are about something |
| `Backends.RunOfTwoPages` | pkg/aip/jet/execute.go:29-88 | Over every collation and token encoding there is a completed run of two pages that meets all assumptions of the run theorems |
| `Backends.BooleanOrderStops` | pkg/aip/jet/execute.go:280-353 | Two tasks listed by a boolean downwards and an id upwards: the first page comes with a token, and the token is refused |
| `Backends.EmptyOrderNeverStops` | pkg/aip/jet/schema.go:241-247 | A schema without default order and tie-breakers, and two rows: following tokens never comes to an end |
| `Backends.LargestPageWraps` | pkg/aip/jet/execute.go:47-49 | A schema with the largest int32 as maximum page size: a request for it is planned and asks for -2^31 rows |
| `Limits.RequestSucceedsIff` | pkg/aip/jet/execute.go:42-61 | Below the largest page size a request with a current token succeeds exactly on page one or when the order has one direction or no boolean column; otherwise it is refused for its token |
| `Limits.LimitIff` | pkg/aip/jet/execute.go:47-49 | The LIMIT is one more than the page size exactly below 2^31 - 1, and there it is -2^31 |
| `Limits.AtTheLimit` | pkg/aip/jet/execute.go:47-73 | At that size a failing query fails the request, one without rows gives the empty last page, which is right exactly when none remain, and one that reads on without limit gives the right page and token |
| `Limits.EmptyOrderRepeats` | pkg/aip/jet/schema.go:241-247 | Under the empty order every request, with or without a token, gets the first page, and a token as long as the rows do not fit |
| `Limits.EndsIff` | pkg/aip/jet/execute.go:29-88 | A listing over an unchanged table can be followed to its end exactly when its order is not empty and can be resumed, or its rows fit one page |
| `Limits.SecondPageFails` | pkg/aip/jet/execute.go:42-45 | When rows remain after page one of an order that cannot be resumed, its token is refused, whatever has become of the table |
| `Limits.TieBreakersIdentify` | pkg/aip/jet/schema.go:87-95 | If the tie-breaker columns identify rows, then so does every effective order a client can ask for |
| `Keyset.KeysetMeaning` | pkg/aip/jet/execute.go:104-129 | Whichever form is chosen, the condition is TRUE of a row exactly when the row is strictly after the cursor, and never unknown |
| `Keyset.ClausesMeaning` | pkg/aip/jet/execute.go:90-102 | The ORDER BY clauses put one row before another exactly when the order fields, read one by one with their directions, do |
| `Keyset.FormsAgree` | pkg/aip/jet/execute.go:124-155 | For a uniform order of any length the ROW comparison and the OR chain have the same value on every row |
| `Keyset.FallbackMeaning` | pkg/aip/jet/execute.go:157-183 | For any number of fields and any mix of directions the OR of AND chains is TRUE exactly of the rows strictly after the cursor in the ORDER BY order |
| `Keyset.BuildLexicographicFallback` | pkg/aip/jet/execute.go:159-183 | The nested loops build the OR of AND chains, and fail exactly when some value has no comparison or is a boolean |
| `Keyset.BuildKeysetCondition` | pkg/aip/jet/execute.go:111-129 | Which condition or error a cursor gives, in the order of the checks |
| `Keyset.CombineMeaning` | pkg/aip/jet/execute.go:186-197 | A row passes the combined condition exactly when it passes each condition present |
| `Execute.BuildPlan` | pkg/aip/jet/plan.go:11-55 | The plan or error of a request: clamped size, order checked before token, token before cursor |
| `Execute.PlannedIff` | pkg/aip/jet/plan.go:11-55 | A request is planned exactly when its order_by is accepted and its token is empty or opens to one that is current and whose values the order's codecs can read; which error it gets otherwise |
| `Execute.ClampPageSize` | pkg/aip/jet/plan.go:12-18 | A size within bounds is granted as asked, a missing one is the default cut to the maximum, and a larger one is the maximum |
| `Execute.BuildNextPageToken` | pkg/aip/jet/execute.go:76-88 | No token when the rows fit the page, else the token of the last row kept |
| `Execute.ExecuteWithCondition` | pkg/aip/jet/execute.go:29-73 | The whole imperative request computes the function that the run theorems are about |
| `Schemas.EffectiveOrderBy` | pkg/aip/jet/schema.go:207-236 | The loops compute that order, or refuse a string that does not parse or names a field that cannot be ordered by |
| `Schemas.EffectiveOrderMeaning` | pkg/aip/jet/schema.go:203-236 | An accepted order starts with what was asked for, or with the whole default order when nothing was, names every tie-breaker and uses only orderable fields; it repeats nothing if the client named an order or the default order repeats nothing |
| `Schemas.EffectiveOrderAccepts` | pkg/aip/jet/schema.go:207-231 | An order_by string is accepted exactly when it denotes an order all of whose fields exist and can be ordered by |
| `Schemas.EffectiveOrderIs` | pkg/aip/jet/schema.go:203-236 | The effective order is the client's order, or the whole default order when there is none, followed by the tie-breakers it does not name, in their own sequence |
| `Schemas.CursorRoundTrip` | pkg/aip/jet/schema.go:241-282 | A token minted under a non-empty order decodes to the same values, int32 and float32 widened, under that order and is refused under every other |
| `Schemas.Validate` | pkg/aip/jet/schema.go:129-180 | A schema is accepted exactly when its sizes are positive, its default and tie-breaker fields can be ordered by and every orderable field has codec, getter and column |
| `Schemas.RefusedIff` | pkg/aip/jet/schema.go:129-180 | A schema is refused exactly for a size that is not positive, a default or tie-breaker field that is unknown or cannot be ordered by, or an orderable field without codec, getter or column |
| `Token.CodecRoundTrip` | pkg/aip/codec.go:24-134 | Whatever a codec encodes it decodes to the same value, int32 and float32 widened |
| `Schemas.DecodeCursorValues` | pkg/aip/jet/schema.go:241-282 | Which cursor or refusal a token gives under an order |
| `Token.EncodeToken` | pkg/aip/page.go:30-80 | A token is minted exactly when values and order match and every value has a codec that takes it; it carries them in order |
| `Token.MintedTokenAccepted` | pkg/aip/page.go:84-132 | A minted token opens to itself, and is accepted exactly within its lifetime, for its resource and for a filter of equal hash |
| `Order.ParseOrderBy` | pkg/aip/order.go:31-97 | The parser accepts exactly the strings that denote an order, and returns that order |
| `Spelling.ParsesIffDenotes` | pkg/aip/order.go:31-97 | The parser accepts exactly the strings that spell an order: permitted characters, items between commas, each a path and perhaps a direction word in any case, spaces around the words |
| `Spelling.ItemSpells` | pkg/aip/order.go:70-97 | An item is read as a field exactly when it spells that path and direction, and no word spells ascending |
| `Spelling.BarePathIsAscending` | pkg/aip/order.go:75-79 | A path written alone denotes the ascending order of that path |
| `Order.RenderRoundTrip` | pkg/aip/order.go:31-97 | Every order of distinct well-formed paths is what its written form denotes |
| `Order.ParsedIsWellFormed` | pkg/aip/order.go:46-52 | Every accepted string denotes distinct well-formed paths, and writing them out denotes the same order |
| `Order.AppendUniqueKeeps` | pkg/aip/order.go:99-107 | The merge keeps the first list as its beginning and repeats no path |
| `Order.AppendUniqueNames` | pkg/aip/order.go:99-107 | The merge names every added path and invents no field |
| `Order.AppendUniqueTail` | pkg/aip/order.go:99-107 | What the merge adds is the first of the added fields for each path not yet named, in their own sequence |
| `Order.IsUniformDirection` | pkg/aip/order.go:116-127 | True exactly when all fields have one direction |
| `TopoSort.TopoSortDdl` | cmd/protoc-gen-go-jet/apply_ddl.go:44-109 | The sort fails exactly when the foreign-key graph has a cycle, naming in input order the files stuck behind one; otherwise it returns the input permuted by the lexicographically least topological order |
| `TopoSort.TopoSortMeaning` | cmd/protoc-gen-go-jet/apply_ddl.go:77-106 | A greedy order that cannot be extended is complete exactly when there is no cycle, is then the least topological order, and otherwise leaves out exactly the blocked files |
| `TopoSort.PathsOfChosen` | cmd/protoc-gen-go-jet/apply_ddl.go:99-106 | The files an error names are the paths at exactly the chosen positions, in input order |
| `TopoSort.FollowsOwners` | cmd/protoc-gen-go-jet/apply_ddl.go:26-36 | In a topological order every file comes after the owner of each table it references |
| `TopoSort.BuildGraph` | cmd/protoc-gen-go-jet/apply_ddl.go:45-75 | Adjacency lists and in-degrees describe the graph over distinct files, without self-references, external tables and parallel edges |
| `Filter.TranslatePreserves` | pkg/aip/jet/filter.go:135-211 | On every row, NULLs included, the compiled expression has the filter's own three-valued value |
| `Filter.TranslateAccepts` | pkg/aip/jet/filter.go:139-231 | The compiler accepts exactly the well-typed filters |
| `Filter.FlattenIff` | pkg/aip/jet/filter.go:239-256 | An expression names a field exactly when it is a chain of selections, and the field's key is the chain's names joined by dots |
| `Filter.LiteralIff` | pkg/aip/jet/filter.go:485-537 | The literal taken for a column type is a value exactly when the expression denotes that value of that type |
| `Filter.JunctionPreserves` | pkg/aip/jet/filter.go:179-211 | Folding AND or OR from the left gives the n-ary conjunction or disjunction |
| `Filter.AndOrOf` | pkg/aip/jet/filter.go:181-211 | The accumulator loop computes the left fold, or fails at the first operand that does not compile |
| `Filter.ComparatorMeaning` | pkg/aip/jet/filter.go:278-332 | Every comparison of a field with a literal means what the filter says: unknown on NULL, tests against null exact, lists by membership |
| `Filter.AnyIsMember` | pkg/aip/jet/filter.go:352-383 | value = ANY(list) is list membership, unknown only when the value is absent and some element is NULL |
| `Filter.HasMeaning` | pkg/aip/jet/filter.go:403-415 | The substring operator is TRUE exactly when the lower-cased column contains the lower-cased needle |
| `FilteredListing.FilteredRun` | pkg/aip/jet/filter.go:118-133 | A listing over an unchanged table whose base condition is a compiled filter returns exactly the rows the filter is true of, each once, in order |
| `FilteredListing.FilteredInterleavedRun` | pkg/aip/jet/execute.go:26-73 | While the table changes, every row received satisfied the filter when read, and a completed run has every row that satisfied it throughout |
| `LikeEscape.SubstringExact` | pkg/aip/jet/filter.go:414-415 | The pattern built for a needle is legal and matches exactly the texts that contain the needle, metacharacters included |
| `LikeEscape.ThreePassesAreOne` | pkg/aip/jet/filter.go:619-632 | The three successive replacements amount to one pass that puts a backslash before each metacharacter |
| `LikeEscape.EscapeLike` | pkg/aip/jet/filter.go:627-632 | The reassigned string ends up as the one-pass escape |
| `Plans.ValidatePlan` | cmd/protoc-gen-go-jet/resolve.go:271-389 | A plan is accepted exactly when columns are distinct, a primary key exists, and on tenant-scoped tables it and every non-partial unique index name the tenant and, where rows are per user, the user column |
| `Plans.RefusedIff` | cmd/protoc-gen-go-jet/resolve.go:271-389 | A plan is refused exactly for a repeated column, an empty primary key, or a key or non-partial unique index that leaves the tenant or user column out |
| `Plans.RenderUniqueColumnIndexes` | cmd/protoc-gen-go-jet/emit_sql.go:345-379 | One unique index per unique column, in declaration order; as sets of columns they are exactly the keys that unique columns declare |
| `ForeignKeyFacts.ReferenceIsUniqueKey` | cmd/protoc-gen-go-jet/resolve_fk.go:198-273 | After a successful pass the columns a foreign key references are those of a unique key of its target's DDL exactly when the target column is not both unique and on a user-scoped table |
| `OwnersAndPets.PetsOfOwners` | cmd/protoc-gen-go-jet/resolve_fk.go:251-256 | Two plans that are accepted and resolved, with a foreign key to no unique key of its target |
| `OwnersAndPets.OwnersOfTwoUsers` | cmd/protoc-gen-go-jet/resolve_fk.go:251-256 | Two plans that are accepted and resolved, with an added key on which rows of two users conflict |
| `TreeNodes.ParentsByCode` | cmd/protoc-gen-go-jet/emit_sql.go:218-236 | A plan that is accepted and resolved, whose foreign key references a unique key of its own table that is not in place when the table is created |
| `DdlOrder.ReferenceInPlaceIff` | cmd/protoc-gen-go-jet/emit_sql.go:38-66 | With the files applied in dependency order, a foreign key finds the key it references in place exactly when its target is another table or its own primary key, and the target column is not both unique and on a user-scoped table |
| `DdlOrder.SortPlans` | cmd/protoc-gen-go-jet/migration_scaffold.go:131-154 | The sort of the files of resolved plans fails exactly on a reference cycle, and otherwise returns them in an order in which every foreign key that can find its key in place does |
| `ForeignKeyFacts.TenantsApart` | cmd/protoc-gen-go-jet/resolve.go:315-336 | After a successful pass rows of different tenants never conflict on an emitted unique key |
| `ForeignKeyFacts.UsersApartIff` | cmd/protoc-gen-go-jet/resolve_fk.go:243-256 | On a user-scoped table rows of different users never conflict exactly when no annotation names one of its columns that is not unique |
| `ForeignKeyFacts.OrderDoesNotMatter` | cmd/protoc-gen-go-jet/resolve_fk.go:165-196 | Any permutation of plans with distinct names gives every annotation the same decision and every plan the same demands, and the pass the same outcome |
| `ForeignKeyFacts.SameOutcome` | cmd/protoc-gen-go-jet/resolve_fk.go:165-196 | Successful passes over a list of plans and over a permutation leave the same fields in every annotation and the same constraints on every plan |
| `ForeignKeys.ResolveForeignKeys` | cmd/protoc-gen-go-jet/resolve_fk.go:169-196 | The in-place pass succeeds exactly when every annotation can be completed; then every annotation holds its decision and every plan exactly the constraints demanded of it, each once |
| `Completable.PassSucceedsIff` | cmd/protoc-gen-go-jet/resolve_fk.go:169-273 | For well-formed plans whose primary keys repeat no column, the pass succeeds exactly when every annotation names a column of a known message, under the same tenancy, that is a key of its own where there is no tenancy, and the names made from it are short enough |
| `Completable.CompletesWith` | cmd/protoc-gen-go-jet/resolve_fk.go:198-273 | When an annotation that names a given column can be completed, and that it is then completed with that column, an index exactly when one is asked for and none leads with its own column, and the constraint demanded |
| `Completable.EligibleIff` | cmd/protoc-gen-go-jet/resolve_fk.go:322-330 | Without tenancy, and with a primary key that repeats no column, a column can be referenced exactly when it is unique or is the whole primary key; where no unique index is annotated that is when it alone is a key the DDL declares |
| `Completable.DemandIff` | cmd/protoc-gen-go-jet/resolve_fk.go:243-256 | A constraint on tenant and column is demanded exactly of a tenant-scoped table where the column is not unique and the two are not its primary key |
| `Completable.SplitTargetIff` | cmd/protoc-gen-go-jet/resolve_fk.go:279-297 | A target is split into exactly the message and field it names: absolute after a leading dot, otherwise in the package of the annotated message |
| `Completable.RegisteredIff` | cmd/protoc-gen-go-jet/resolve_fk.go:170-173 | A name stands for the last plan that bears it |
| `Completable.FoundIff` | cmd/protoc-gen-go-jet/resolve_fk.go:299-310 | The column found is the first one of that proto field |
| `Completable.CoveredIff` | cmd/protoc-gen-go-jet/resolve_fk.go:360-381 | A column is covered exactly when some index that the DDL of its table builds leads with it |
| `ForeignKeys.CompleteFk` | cmd/protoc-gen-go-jet/resolve_fk.go:198-273 | The first failing check decides the error; on success every field is filled in and the target gains its constraint at most once |
| `ForeignKeys.UniquesStep` | cmd/protoc-gen-go-jet/resolve_fk.go:386-393 | Skipping a constraint whose name is taken never loses one, since on one table the name determines the constraint |
| `ForeignKeys.TargetPkCoversTenantComposite` | cmd/protoc-gen-go-jet/resolve_fk.go:336-351 | True exactly when the primary key is the tenant column and the target column, distinct, in either order |
| `ForeignKeys.ColumnAlreadyCovered` | cmd/protoc-gen-go-jet/resolve_fk.go:360-381 | True exactly when the primary key, an index or the column's own unique index leads with the column |
| `Mapper.StoreAndLoadMap` | cmd/protoc-gen-go-jet/e2e/gen/jet/e2e/v1/storage/maps_mapper.go:21-792 | Every map of every key kind comes back from its column unchanged, and an absent map stays apart from an empty one |
| `Mapper.KeyRoundTrip` | cmd/protoc-gen-go-jet/emit_mapper.go:97-184 | For every key kind the bounded parse inverts the formatting |
| `Mapper.KeyText` | cmd/protoc-gen-go-jet/emit_mapper.go:97-115 | An integer key is written as its decimal text, a boolean one as the word for its value |
| `Mapper.KeyInRange` | cmd/protoc-gen-go-jet/emit_mapper.go:151-184 | A parsed key stays within the width of its kind |
| `Mapper.StoreAndLoadEnumMap` | cmd/protoc-gen-go-jet/emit_mapper.go:646-656 | A map of enums comes back with zero for each undeclared value, so whole exactly when every value is declared |
| `Mapper.RekeyRoundTrip` | cmd/protoc-gen-go-jet/emit_mapper.go:634-645 | Rekeying and parsing back loses, merges and invents no entry, and each value is read back from what was written for it |
| `Mapper.StoreAndLoadUints` | cmd/protoc-gen-go-jet/e2e/gen/jet/e2e/v1/storage/collections_mapper.go:73-90 | Unsigned lists survive storage as signed ones, element for element, and an absent list stays apart from an empty one |
| `Mapper.StoreAndLoadEnums` | cmd/protoc-gen-go-jet/emit_mapper.go:565-571 | A stored enum list comes back without its undeclared numbers, so whole exactly when every element is declared |
| `Delta.ComputeTableDelta` | cmd/protoc-gen-go-jet/migration_scaffold.go:326-362 | The output is the exact difference of each kind of object in turn, a hazard after each added foreign key, then the table-level lines |
| `Delta.DeltaEmptyIff` | cmd/protoc-gen-go-jet/migration_scaffold.go:326-362 | With distinct names, keys made of columns and target column names free of commas the delta is empty exactly when the snapshots agree on every object, the primary key, row-level security and the comment |
| `Delta.DeltaTags` | cmd/protoc-gen-go-jet/migration_scaffold.go:326-345 | The delta adds exactly the objects only the target has, removes exactly those only the current table has, and changes exactly those both have and disagree on |
| `Delta.TableLinesIff` | cmd/protoc-gen-go-jet/migration_scaffold.go:355-360 | The row-level-security line and the comment line are there exactly when the snapshots differ in that |
| `Delta.DeltaHazards` | cmd/protoc-gen-go-jet/migration_scaffold.go:344-350 | A hazard stands right after each added foreign key and nowhere else |
| `Delta.DeltaRanked` | cmd/protoc-gen-go-jet/migration_scaffold.go:326-362 | Columns come before checks, then indexes, policies, foreign keys with their hazards, and the table-level lines |
| `Delta.PrimaryKeyLineIff` | cmd/protoc-gen-go-jet/migration_scaffold.go:352-354 | The primary-key line is there exactly when the joined keys differ, which with plain names is when the keys differ |
| `Delta.CommaHidesKeyLine` | cmd/protoc-gen-go-jet/migration_scaffold.go:352-354 | Two snapshots with different keys, whose delta is not empty and lacks the primary-key line |
| `Delta.DiffNamed` | cmd/protoc-gen-go-jet/migration_scaffold.go:370-397 | Exactly one line, rightly tagged, for each name the sides disagree on, in sorted order |
| `Delta.DiffTags` | cmd/protoc-gen-go-jet/migration_scaffold.go:384-395 | A line says added of exactly the names only the target has, removed of those only the current side has, changed of those they disagree on |
| `Delta.StringLessIff` | cmd/protoc-gen-go-jet/migration_scaffold.go:382 | The order of the lines goes by the first character in which two names differ, a proper prefix first |
| `DollarQuote.SqlDollarQuote` | cmd/protoc-gen-go-jet/emit_sql.go:126-135 | The search ends with the shortest tag whose delimiter does not occur in the text; the literal it builds is read back as the text exactly when the text does not end in a dollar sign and the tag |
| `DollarQuote.ReadBackIff` | cmd/protoc-gen-go-jet/emit_sql.go:126-135 | Reading the literal back gives the text, with nothing left over, exactly when the text does not end in a dollar sign followed by the tag |
| `DollarQuote.TrailingDollarIsLost` | cmd/protoc-gen-go-jet/emit_sql.go:129-135 | The text `US$` is a concrete one that does not survive |

## Left out

- Plans.ValidatePlan: models the checks that the key properties rest on; that keys, indexes, partitions and orders name known columns, name collisions and length limits, oneof columns and the redundant `unique` on a sole primary key are left out, as they would add checks of the same easy kind.
- Keyset.KeysetMeaning: float columns hold finite doubles, so a NaN in an ordering column is left out beyond its refusal by the codec; timestamps are timestamptz in the years 0 to 9999, and columns without a time zone are left out.
- Runs.InterleavedRun: ordering columns that hold NULL are outside the claim, as the repository documents them as undefined.
- Pagination.CursorIsKey: a field's getter is derived from its column kind.
- Filter.TranslatePreserves: an AND or OR without operands gives no expression at all; the parser never builds one, and the meaning is stated for trees without them.
- Filter.ComparatorMeaning: float literals are exact reals, and an int64 literal is not rounded to a double; timestamp literals keep their nanoseconds, which the database rounds to microseconds.
- DdlOrder.ReferenceInPlaceIff: files are those of the plans, without custom SQL, and table names are distinct.
- Delta.DeltaEmptyIff: an object's fields other than its name are one list of strings compared as a whole.
- TopoSort.TopoSortDdl: a file is given by the tables it creates and references; the regular expressions that find them are left out, and `sort.Ints` is an insertion sort on values.
- Mapper.StoreAndLoadMap: map values pass through as they are; protojson of message values, durations and timestamps are left out.
- Order.ParseOrderBy: the direction word is lower-cased in ASCII only, which decides alike because no other character lower-cases to a letter of `asc` or `desc`.
- Errors are kinds without wording; errors of several foreign keys are joined into one failure.
- PostgreSQL itself, migrations, catalogue queries and the go-jet generator: foreign I/O.
- The filter parser, `FilterToCondition`, and name filters: the model starts from the expression tree.
- Non-nullable column encodings, oneof pairs, wrappers and single message columns of the mapper: smaller instances of the shapes modelled.
- Partition clauses, JSONB indexes, row-level-security policies and comment layout in the DDL: text rendering.
- Foreign-key actions, target syntax and annotation parsing (`resolve_fk.go` lines 23-155): the pass starts from annotations whose target has a dot and whose fields are as parsed.
