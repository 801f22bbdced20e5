# nc-news backend: decision core in Dafny

This project models the decision logic of a small news REST API (topics,
articles, comments, users) built with Express on Postgres. Most of the
repository is glue. The part that decides between "no filter", "apply a
filter", 400, 404 and 500 is modelled here, with the database replaced by
tables held as values:

- **Query-filter validator** (`createValidatedQueriesStr`). It maps an
  optional query value and an allow-list to one of four results: the empty
  clause, a `WHERE table.column = 'value'` fragment, a 400 or a 404. It also
  has two projections that turn topic rows into slugs and schema rows into
  column names. See `model_utils.dfy`.
- **Article existence guard** (`selectArticleById`). A non-numeric id gives
  a 400. A missing row gives a 404. Otherwise the guard returns the first
  row with that id. See `articles_model.dfy`.
- **Comment deletion** (`removeCommentById`). It checks the id, deletes
  every row with that key, and gives a 404 when nothing was deleted. See
  `comments_model.dfy`.
- **Boundary** (`app.js`). The catch-all route gives 404. The two error
  middlewares pass a `{status, msg}` error through when both fields are
  truthy and answer anything else with 500. This is composed with the two
  endpoints above. See `app.dfy`.

Shared pieces:

- `results.dfy` holds the `Result` type. `Ok` is a resolved promise.
  `Reject(status, msg)` is a structured rejection. `Fault` is a database
  driver error, which carries neither field.
- `results.dfy` also holds `IdReading`, which reads a raw id from the path.
- `tables.dfy` holds the abstract table: a table is the sequence of its rows
  in store order, and `WHERE key = k` selects or deletes exactly the rows
  whose key is `k`.

Behaviour of the code that the model keeps exactly:

- **Empty filter value.** The validator checks the allow-list before it
  checks for emptiness. If `""` is allow-listed, the result is a WHERE
  fragment rather than a 400 (`models/model-utils.js:16-22`).
- **Numeric ids.** The id guards use only JavaScript's `isNaN`, which also
  accepts `""`, `"1.5"` and `"0x1A"`. Such ids then reach the database. The
  model makes this explicit: an id can be "numeric" and still be refused by
  the database, which gives a 500.
- **Error messages.** The messages are the exact strings from the code, for
  example `"400 Bad Request - Invalid ID"` and `"404 comment not found"`.
- **Deletion result.** `removeCommentById` resolves with the deleted rows.
  Only the controller drops them when it sends 204.

## Model

| member | source | states |
|---|---|---|
| `Tables.Where` | models/articles.model.js:9-12 | the rows a keyed SELECT or DELETE touches are exactly the table's rows with that key, and no more of them than the table has |
| `Tables.WhereNot` | models/comments.model.js:9-13 | the rows a keyed DELETE leaves behind are exactly the table's rows with a different key |
| `Tables.Project` | models/model-utils.js:5-7 | a row-to-field map has one output per row, and output i is the field of row i |
| `Tables.Partition` | models/comments.model.js:9-13 | the deleted rows plus the remaining rows equal the table before the DELETE, counting duplicates |
| `Tables.OthersUntouched` | models/comments.model.js:10-11 | a keyed DELETE does not change how often any row with another key occurs |
| `Tables.NoMatchKeepsAll` | models/comments.model.js:9-17 | a DELETE that matches nothing leaves the table identical |
| `Tables.FirstMatch` | models/articles.model.js:13-19 | the first row a keyed SELECT returns is the earliest row in the table with that key |
| `ModelUtils.SlugsOf` | models/model-utils.js:3-8 | the slug list keeps length and order (slug i is row i's slug), and a string is a valid topic exactly when some topic row has it as its slug |
| `ModelUtils.ColumnNamesOf` | models/model-utils.js:28-36 | the column-name list keeps length and order (name i is row i's column_name) |
| `ModelUtils.ClauseRoundTrip` | models/model-utils.js:17 | reading the value back from a rendered WHERE fragment gives the value it was built from |
| `ModelUtils.ClauseValueExact` | models/model-utils.js:17 | any text that reads as a fragment is exactly the fragment rendered from the value read, with no extra text |
| `ModelUtils.CreateValidatedQueriesStr` | models/model-utils.js:10-26 | an absent value gives `""` for any allow-list; the result is accepted exactly when the value is absent or allow-listed; an allow-listed value, `""` included, gives exactly `WHERE table.column = 'value'` (membership is checked before emptiness); 400 "no query value given" exactly for a non-allow-listed `""`; 404 "no resources found" exactly for any other non-allow-listed value |
| `ModelUtils.InjectionSafety` | models/model-utils.js:16-17 | every non-empty fragment the validator returns reads back as an allow-listed value, so only allow-listed text is interpolated into SQL |
| `ModelUtils.TopicFilterMatchesTopics` | models/model-utils.js:3-26 | checked against the live slugs, a topic value is accepted exactly when some topic row has that slug |
| `ArticlesModel.SelectArticleById` | models/articles.model.js:3-21 | a non-numeric id is a 400 "Invalid ID" whatever the table holds; otherwise it is a 404 exactly when no row has the key; on success the result is the earliest row with the requested key; an id the database cannot convert is a driver failure |
| `ArticlesModel.SelectFindsTheArticle` | models/articles.model.js:9-19 | when ids are unique, the guard returns exactly the row whose id the request names |
| `CommentsModel.RemoveCommentById` | models/comments.model.js:3-22 | a non-numeric id is a 400 and leaves the table unchanged; success happens exactly when some row has the key; on success the result is non-empty and holds exactly the rows with that key, no row with that key remains, and removed plus remaining equals the table before; otherwise it is a 404 with the table unchanged; every row with another key is kept, as often as it occurred before |
| `CommentsModel.RemoveTwice` | models/comments.model.js:9-21 | deleting the same id again after a success is a 404 "comment not found" and changes nothing |
| `App.Thrown` | controllers/articles.controller.js:8 | the error a rejected model call hands to `next` has a truthy status and msg exactly when it is a structured rejection with a non-zero status and a non-empty msg, and then carries that status and msg; a driver failure has neither |
| `App.HandleError` | app.js:36-47 | an error with a truthy status and msg is answered with exactly that status and msg; a missing field, status 0 or msg `""` gives 500 "500 Bad Server"; the status is always either the error's own or 500 |
| `App.RejectionsReachClient` | app.js:36-47 | a structured rejection with a non-zero status and a non-empty msg reaches the client unchanged; a driver failure, or a rejection with a falsy field, becomes a 500 |
| `App.Serve` | app.js:30-32 | any unmatched route gives 404 "404 Route Not Found" and leaves the store unchanged; no modelled request changes the article table |
| `App.GetArticleStatuses` | controllers/articles.controller.js:4-9 | GET of an article never changes the store; it gives 400 exactly for a non-numeric id, 500 exactly when the database refuses the id, 404 exactly when no row has the key, and 200 exactly when some row has it, with a body holding a stored row with that key |
| `App.DeleteCommentStatuses` | controllers/comments.controller.js:3-8 | DELETE of a comment gives 400 or 500 with the store unchanged for a bad id; 204 exactly when some comment had the key, after which none has it; otherwise 404 with the store unchanged |
| `App.DeleteTwiceIs204Then404` | controllers/comments.controller.js:3-8 | after a DELETE answered 204, the same DELETE is answered 404 "404 comment not found" and leaves the store as it was |

## Left out

- JavaScript's `isNaN`: `IdReading.numeric` is a parameter, not a definition. The guard properties hold for any such predicate, so they do not depend on how `isNaN` coerces strings.
- Postgres's conversion of the bound id text to an integer key: `IdReading.asKey` is a parameter too. A refusal is `Fault`, and the boundary turns it into 500. The driver's error contents are not modelled.
- Database I/O, connection handling and SQL semantics beyond "select or delete the rows whose key equals k": tables are sequences passed in as values. Postgres does not define the row order without `ORDER BY`; the sequence order stands in for it.
- `ModelUtils.ColumnNamesOf`: it receives the schema rows already restricted to the `articles` table. The `TABLE_NAME` filter of the schema query is part of the database I/O.
- Query values that are not strings, such as the array Express builds for a repeated query parameter: the validator takes an optional string.
- `App.HandleError`: models `status` as an integer and `msg` as a string. It does not model other JavaScript values in those fields, or Node's refusal of status codes outside 100-999 when the response is written.
- Route registration, `cors`, `express.json` and Express's path matching (app.js:1-28): a request is already classified as one of the two modelled endpoints or as unrouted.
- `/api`: its controller reads `endpoints.json` from disk and sends it; file I/O is not modelled.
- `GET /api/topics` and `GET /api/users`: their controllers forward to a model (`selectTopics`, which returns every topic row, and `selectUsers`) and send the rows with 200. There is no decision logic to model, and `selectUsers` is not part of this model.
- Article listing, patching an article, posting and listing an article's comments, and listing all comments: the handlers `getArticles`, `patchArticleById`, `postCommentByArticleId`, `getCommentsArticleById` and `getComments` are not part of this model. Sort and order validation, vote increments, comment insertion and `comment_count` are therefore not modelled.
- Promise chaining and asynchrony: a resolve or reject is a `Result` value.
- Concurrency between requests, including the check-then-act race between a lookup and a later write: each request is modelled as one atomic step.
- Response serialization: JSON bodies are the `Body` constructors `Message`, `ArticleBody` and `NoContent`.
