/** The query helpers shared by the article listing: the projections of
    topic and column rows, and the validator that turns an optional query
    value into a WHERE fragment or a rejection. */
module ModelUtils {
  import opened Results
  import opened Tables

  /** A row of `SELECT slug FROM topics`. */
  datatype TopicRow = TopicRow(slug: string)

  /** A row of `INFORMATION_SCHEMA.COLUMNS` (only the field read here). */
  datatype ColumnRow = ColumnRow(columnName: string)

  function SlugOf(t: TopicRow): string { t.slug }

  function ColumnNameOf(c: ColumnRow): string { c.columnName }

  /** The slugs of the topic rows, one per row and in row order; a string
      is among them exactly when some row carries it. */
  function SlugsOf(rows: seq<TopicRow>): (slugs: seq<string>)
    ensures |slugs| == |rows|
    ensures forall i :: 0 <= i < |rows| ==> slugs[i] == rows[i].slug
    ensures forall s :: s in slugs <==> exists t :: t in rows && t.slug == s
  {
    var slugs := Project(rows, SlugOf);
    assert forall t :: t in rows ==> t.slug in slugs by {
      forall t | t in rows ensures t.slug in slugs {
        var i :| 0 <= i < |rows| && rows[i] == t;
        assert slugs[i] == t.slug;
      }
    }
    slugs
  }

  /** The column names of the column rows, one per row and in row order. */
  function ColumnNamesOf(rows: seq<ColumnRow>): (names: seq<string>)
    ensures |names| == |rows|
    ensures forall i :: 0 <= i < |rows| ==> names[i] == rows[i].columnName
  {
    Project(rows, ColumnNameOf)
  }

  const NoQueryValueMsg := "400 Bad Request - no query value given"
  const NoResourcesMsg := "404 no resources found"

  /** The text before the interpolated value of a filter fragment. */
  function ClausePrefix(table: string, column: string): string
  {
    "WHERE " + table + "." + column + " = '"
  }

  /** The filter fragment `WHERE table.column = 'value'`. */
  function WhereClause(table: string, column: string, value: string): string
  {
    ClausePrefix(table, column) + value + "'"
  }

  /** Reads back the value a filter fragment on `table.column` compares
      against; `None` for text that is not such a fragment. */
  function ClauseValue(table: string, column: string, clause: string): Option<string>
  {
    var p := ClausePrefix(table, column);
    if |clause| > |p| && clause[..|p|] == p && clause[|clause| - 1] == '\''
    then Some(clause[|p|..|clause| - 1])
    else None
  }

  /** Reading a rendered fragment gives back the value it was built from. */
  lemma ClauseRoundTrip(table: string, column: string, value: string)
    ensures ClauseValue(table, column, WhereClause(table, column, value)) == Some(value)
  {
  }

  /** Whatever reads as a fragment is exactly the fragment rendered from the
      value read: there is no other text around or inside it. */
  lemma ClauseValueExact(table: string, column: string, clause: string)
    requires ClauseValue(table, column, clause).Some?
    ensures WhereClause(table, column, ClauseValue(table, column, clause).value) == clause
  {
  }

  /** `createValidatedQueriesStr`: an absent value applies no filter; an
      allow-listed value (checked first) is interpolated into a WHERE
      fragment; an empty value is a 400 and any other value a 404. */
  function CreateValidatedQueriesStr(table: string, column: string, validQueriesValues: seq<string>,
                                     queryValue: Option<string>): (r: Result<string>)
    ensures queryValue.None? ==> r == Ok("")
    ensures r.Ok? <==> queryValue.None? || queryValue.value in validQueriesValues
    ensures queryValue.Some? && queryValue.value in validQueriesValues ==>
              r == Ok(WhereClause(table, column, queryValue.value))
    ensures r.Ok? && r.value != "" ==>
              queryValue.Some? && queryValue.value in validQueriesValues
              && r.value == WhereClause(table, column, queryValue.value)
    ensures r.Reject? && r.status == 400 <==>
              queryValue == Some("") && "" !in validQueriesValues
    ensures r.Reject? && r.status == 404 <==>
              queryValue.Some? && queryValue.value != "" && queryValue.value !in validQueriesValues
    ensures r.Reject? ==> r.msg == (if r.status == 400 then NoQueryValueMsg else NoResourcesMsg)
    ensures !r.Fault?
  {
    if queryValue.None? then Ok("")
    else if queryValue.value in validQueriesValues then Ok(WhereClause(table, column, queryValue.value))
    else if queryValue.value == "" then Reject(400, NoQueryValueMsg)
    else Reject(404, NoResourcesMsg)
  }

  /** Only allow-listed text reaches the SQL: any non-empty fragment the
      validator returns reads back as a value of the allow-list. */
  lemma InjectionSafety(table: string, column: string, validQueriesValues: seq<string>,
                        queryValue: Option<string>)
    ensures var r := CreateValidatedQueriesStr(table, column, validQueriesValues, queryValue);
            r.Ok? && r.value != "" ==>
              ClauseValue(table, column, r.value).Some?
              && ClauseValue(table, column, r.value).value in validQueriesValues
  {
  }

  /** Against the live topic slugs, a present topic value is accepted
      exactly when some topic row has that slug. */
  lemma TopicFilterMatchesTopics(table: string, column: string, topics: seq<TopicRow>, value: string)
    ensures CreateValidatedQueriesStr(table, column, SlugsOf(topics), Some(value)).Ok?
            <==> exists t :: t in topics && t.slug == value
  {
  }
}
