/**
 * The `/api/search` handler: it turns the optional query parameters into a
 * parameterised SQL text plus its positional parameter list, and renames the
 * `content` column of each result row to `msg`.
 *
 * The query is kept as data (conditions, values) and rendered to text by
 * `Sql`; what the database does with `ILIKE` or `EXTRACT` is not modelled.
 */
module SearchQuery {
  import opened Wrappers
  import opened Decimal
  import opened Strings
  import opened JsValues
  import opened MessageStore

  /**
   * The query string of a request. `username` is accepted but never read by
   * the handler; it is kept so that its lack of effect can be stated.
   */
  datatype Filter = Filter(
    username: Option<string>,
    keyword: Option<string>,
    year: Option<string>,
    month: Option<string>,
    day: Option<string>)

  /** The filterable columns, in the order the handler tests them. */
  datatype Field = Keyword | Year | Month | Day

  function Rank(f: Field): nat {
    match f
    case Keyword => 0
    case Year => 1
    case Month => 2
    case Day => 3
  }

  /** A WHERE predicate on `field`, comparing against parameter `$placeholder`. */
  datatype Condition = Condition(field: Field, placeholder: nat)

  /** The query as the handler builds it: conditions and the positional values they refer to. */
  datatype Query = Query(conditions: seq<Condition>, values: seq<string>)

  const SelectClause: string := "SELECT nickname, content, " + "message_type, created_at FROM messages"
  const OrderClause: string := " ORDER BY created_at DESC LIMIT 100"

  /** JavaScript truthiness of a query parameter: present and non-empty. */
  predicate Truthy(v: Option<string>) {
    v.Some? && v.value != ""
  }

  function Raw(f: Filter, field: Field): Option<string> {
    match field
    case Keyword => f.keyword
    case Year => f.year
    case Month => f.month
    case Day => f.day
  }

  /**
   * Whether `field` contributes a predicate: the keyword when truthy (even
   * the text "any"); a date part when truthy and not "any".
   */
  predicate Active(f: Filter, field: Field) {
    Truthy(Raw(f, field)) && (field == Keyword || Raw(f, field).value != "any")
  }

  /** The value bound to the predicate on `field`: `%keyword%` for the substring match. */
  function Parameter(f: Filter, field: Field): string
    requires Active(f, field)
  {
    if field == Keyword then "%" + f.keyword.value + "%" else Raw(f, field).value
  }

  /** The handler's local state: `conditions`, `values` and the counter `valueIndex`. */
  datatype Builder = Builder(conditions: seq<Condition>, values: seq<string>, valueIndex: nat)

  /** `conditions.push(… $valueIndex++)` and `values.push(value)`. */
  function Push(b: Builder, field: Field, value: string): Builder {
    Builder(b.conditions + [Condition(field, b.valueIndex)], b.values + [value], b.valueIndex + 1)
  }

  function PushIf(b: Builder, f: Filter, field: Field): Builder {
    if Active(f, field) then Push(b, field, Parameter(f, field)) else b
  }

  /**
   * What holds of the builder once the fields of rank below `done` have been
   * examined: one condition and one value per active field among them, the k-th
   * condition numbered k + 1, fields in rank order, and the counter one past
   * the last placeholder.
   */
  ghost predicate Built(f: Filter, b: Builder, done: nat) {
    && |b.conditions| == |b.values| <= done
    && b.valueIndex == |b.conditions| + 1
    && (forall k :: 0 <= k < |b.conditions| ==> b.conditions[k].placeholder == k + 1)
    && (forall k :: 0 <= k < |b.conditions| ==>
          Rank(b.conditions[k].field) < done
          && Active(f, b.conditions[k].field) && b.values[k] == Parameter(f, b.conditions[k].field))
    && (forall field :: Rank(field) < done && Active(f, field) ==>
          exists k :: 0 <= k < |b.conditions| && b.conditions[k].field == field)
    && (forall j, k :: 0 <= j < k < |b.conditions| ==>
          Rank(b.conditions[j].field) < Rank(b.conditions[k].field))
  }

  lemma PushIfKeepsBuilt(f: Filter, b: Builder, field: Field)
    requires Built(f, b, Rank(field))
    ensures Built(f, PushIf(b, f, field), Rank(field) + 1)
  {
    if Active(f, field) {
      PushKeepsBuilt(f, b, field);
    } else {
      SkipKeepsBuilt(f, b, field);
    }
  }

  lemma PushKeepsBuilt(f: Filter, b: Builder, field: Field)
    requires Built(f, b, Rank(field)) && Active(f, field)
    ensures Built(f, Push(b, field, Parameter(f, field)), Rank(field) + 1)
  {
    PushKeepsNumbering(f, b, field);
    PushKeepsOrder(f, b, field);
    PushCoversField(f, b, field);
  }

  /** After the push, the k-th condition is still numbered k + 1 and belongs to an active field examined so far. */
  lemma PushKeepsNumbering(f: Filter, b: Builder, field: Field)
    requires Built(f, b, Rank(field)) && Active(f, field)
    ensures var b' := Push(b, field, Parameter(f, field));
            forall k :: 0 <= k < |b'.conditions| ==>
              && b'.conditions[k].placeholder == k + 1
              && Rank(b'.conditions[k].field) < Rank(field) + 1
              && Active(f, b'.conditions[k].field) && b'.values[k] == Parameter(f, b'.conditions[k].field)
  {
    var n := |b.conditions|;
    var b' := Push(b, field, Parameter(f, field));
    forall k | 0 <= k < n + 1
      ensures b'.conditions[k].placeholder == k + 1
      ensures Rank(b'.conditions[k].field) < Rank(field) + 1
      ensures Active(f, b'.conditions[k].field) && b'.values[k] == Parameter(f, b'.conditions[k].field)
    {
      if k < n {
        assert b'.conditions[k] == b.conditions[k] && b'.values[k] == b.values[k];
      }
    }
  }

  /** After the push, conditions are still in rank order. */
  lemma PushKeepsOrder(f: Filter, b: Builder, field: Field)
    requires Built(f, b, Rank(field)) && Active(f, field)
    ensures var c := Push(b, field, Parameter(f, field)).conditions;
            forall j, k :: 0 <= j < k < |c| ==> Rank(c[j].field) < Rank(c[k].field)
  {
    var n := |b.conditions|;
    var c := Push(b, field, Parameter(f, field)).conditions;
    forall j, k | 0 <= j < k < n + 1 ensures Rank(c[j].field) < Rank(c[k].field) {
      assert c[j] == b.conditions[j];
      if k < n {
        assert c[k] == b.conditions[k];
      }
    }
  }

  /** After the push, every active field examined so far, this one included, has a condition. */
  lemma PushCoversField(f: Filter, b: Builder, field: Field)
    requires Built(f, b, Rank(field)) && Active(f, field)
    ensures var c := Push(b, field, Parameter(f, field)).conditions;
            forall g :: Rank(g) < Rank(field) + 1 && Active(f, g) ==>
              exists k :: 0 <= k < |c| && c[k].field == g
  {
    var n := |b.conditions|;
    var c := Push(b, field, Parameter(f, field)).conditions;
    forall g | Rank(g) < Rank(field) + 1 && Active(f, g)
      ensures exists k :: 0 <= k < n + 1 && c[k].field == g
    {
      if Rank(g) < Rank(field) {
        var k :| 0 <= k < n && b.conditions[k].field == g;
        assert c[k].field == g;
      } else {
        assert g == field;
        assert c[n].field == g;
      }
    }
  }

  lemma SkipKeepsBuilt(f: Filter, b: Builder, field: Field)
    requires Built(f, b, Rank(field)) && !Active(f, field)
    ensures Built(f, b, Rank(field) + 1)
  {
  }

  /** The four `if` blocks of the handler, in order. */
  function RunBuilder(f: Filter): Builder {
    var b0 := Builder([], [], 1);
    var b1 := PushIf(b0, f, Keyword);
    var b2 := PushIf(b1, f, Year);
    var b3 := PushIf(b2, f, Month);
    PushIf(b3, f, Day)
  }

  lemma RunBuilderBuilt(f: Filter)
    ensures Built(f, RunBuilder(f), 4)
  {
    var b0 := Builder([], [], 1);
    var b1 := PushIf(b0, f, Keyword);
    var b2 := PushIf(b1, f, Year);
    var b3 := PushIf(b2, f, Month);
    PushIfKeepsBuilt(f, b0, Keyword);
    PushIfKeepsBuilt(f, b1, Year);
    PushIfKeepsBuilt(f, b2, Month);
    PushIfKeepsBuilt(f, b3, Day);
  }

  /**
   * The query of a request. Each active field adds exactly one condition and
   * one value; the k-th condition uses `$k` and its value sits at position k;
   * fields appear in the order keyword, year, month, day.
   */
  function BuildQuery(f: Filter): (q: Query)
    ensures |q.conditions| == |q.values| <= 4
    ensures forall k :: 0 <= k < |q.conditions| ==> q.conditions[k].placeholder == k + 1
    ensures forall k :: 0 <= k < |q.conditions| ==>
              Active(f, q.conditions[k].field) && q.values[k] == Parameter(f, q.conditions[k].field)
    ensures forall field :: Active(f, field) <==>
              exists k :: 0 <= k < |q.conditions| && q.conditions[k].field == field
    ensures forall j, k :: 0 <= j < k < |q.conditions| ==>
              Rank(q.conditions[j].field) < Rank(q.conditions[k].field)
  {
    var b := RunBuilder(f);
    RunBuilderBuilt(f);
    assert forall field :: Rank(field) < 4;
    Query(b.conditions, b.values)
  }

  /** The `username` parameter has no effect on the query. */
  lemma UsernameIgnored(f: Filter, u: Option<string>)
    ensures BuildQuery(f.(username := u)) == BuildQuery(f)
  {
  }

  /** The keyword is matched as a substring: its value is the keyword between two `%`. */
  lemma KeywordIsFirstParameter(f: Filter)
    requires Truthy(f.keyword)
    ensures var q := BuildQuery(f);
            q.conditions != [] && q.conditions[0] == Condition(Keyword, 1)
            && q.values[0] == "%" + f.keyword.value + "%"
  {
    var q := BuildQuery(f);
    assert Active(f, Keyword);
    var k :| 0 <= k < |q.conditions| && q.conditions[k].field == Keyword;
  }

  // ------------------------------------------------------------------ SQL text

  function Template(field: Field): string {
    match field
    case Keyword => "content ILIKE "
    case Year => "EXTRACT(YEAR " + "FROM created_at) = "
    case Month => "EXTRACT(MONTH " + "FROM created_at) = "
    case Day => "EXTRACT(DAY " + "FROM created_at) = "
  }

  function ConditionSql(c: Condition): string {
    Template(c.field) + "$" + NatToString(c.placeholder)
  }

  function ConditionTexts(cs: seq<Condition>): (ts: seq<string>)
    ensures |ts| == |cs|
    decreases |cs|
  {
    if cs == [] then [] else [ConditionSql(cs[0])] + ConditionTexts(cs[1..])
  }

  /** `' WHERE ' + conditions.join(' AND ')` when there are conditions, else nothing. */
  function WhereClause(cs: seq<Condition>): string {
    if |cs| > 0 then " WHERE " + Join(ConditionTexts(cs), " AND ") else ""
  }

  /** The query text handed to the database. */
  function Sql(q: Query): string {
    SelectClause + WhereClause(q.conditions) + OrderClause
  }

  /** The fixed pieces of text hold no `$`, so every placeholder comes from a condition. */
  lemma FixedTextHasNoDollar()
    ensures '$' !in SelectClause && '$' !in OrderClause && '$' !in " WHERE " && '$' !in " AND "
  {
  }

  lemma TemplateHasNoDollar(field: Field)
    ensures '$' !in Template(field)
  {
    match field
    case Keyword =>
    case Year =>
    case Month =>
    case Day =>
  }

  /** Without conditions the text has no `W` at all. */
  lemma FrameHasNoW()
    ensures 'W' !in SelectClause + OrderClause
  {
  }

  /** The text always starts with the SELECT of the four columns and ends with the newest-first, 100-row cap. */
  lemma SqlFrame(q: Query)
    ensures |Sql(q)| >= |SelectClause| + |OrderClause|
    ensures Sql(q)[..|SelectClause|] == SelectClause
    ensures Sql(q)[|Sql(q)| - |OrderClause|..] == OrderClause
  {
  }

  /** ` WHERE ` appears in the text exactly when the query has a condition. */
  lemma WhereIffConditions(q: Query)
    ensures Occurs(Sql(q), " WHERE ") <==> |q.conditions| > 0
  {
    if |q.conditions| > 0 {
      assert OccursAt(Sql(q), " WHERE ", |SelectClause|);
    } else {
      assert Sql(q) == SelectClause + OrderClause;
      FrameHasNoW();
      AbsentCharMeansAbsent(Sql(q), " WHERE ", 'W');
    }
  }

  // ---------------------------------------------- placeholders in the SQL text

  /** The longest prefix of decimal digits. */
  function TakeDigits(s: string): (d: string)
    ensures |d| <= |s| && d == s[..|d|] && AllDigits(d)
    ensures |d| == |s| || !IsDigit(s[|d|])
    decreases |s|
  {
    if s != [] && IsDigit(s[0]) then [s[0]] + TakeDigits(s[1..]) else []
  }

  /** The numbers of the `$n` placeholders in a text, left to right. */
  function Placeholders(s: string): seq<nat>
    decreases |s|
  {
    if s == [] then []
    else if s[0] == '$' then
      var d := TakeDigits(s[1..]);
      [ParseDigits(d)] + Placeholders(s[1 + |d|..])
    else Placeholders(s[1..])
  }

  lemma {:induction false} PlaceholdersSkip(a: string, b: string)
    requires '$' !in a
    ensures Placeholders(a + b) == Placeholders(b)
    decreases |a|
  {
    if a != [] {
      assert a[0] in a;
      assert (a + b)[0] == a[0];
      assert (a + b)[1..] == a[1..] + b;
      PlaceholdersSkip(a[1..], b);
    } else {
      assert a + b == b;
    }
  }

  lemma TakeDigitsOf(d: string, b: string)
    requires AllDigits(d)
    requires b == [] || !IsDigit(b[0])
    ensures TakeDigits(d + b) == d
    decreases |d|
  {
    if d != [] {
      assert (d + b)[1..] == d[1..] + b;
      TakeDigitsOf(d[1..], b);
    } else {
      assert d + b == b;
    }
  }

  lemma PlaceholderToken(d: string, b: string)
    requires AllDigits(d)
    requires b == [] || !IsDigit(b[0])
    ensures Placeholders("$" + d + b) == [ParseDigits(d)] + Placeholders(b)
  {
    var s := "$" + d + b;
    assert s[1..] == d + b;
    TakeDigitsOf(d, b);
    assert s[1 + |d|..] == b;
  }

  lemma ConditionPlaceholder(c: Condition, b: string)
    requires b == [] || !IsDigit(b[0])
    ensures Placeholders(ConditionSql(c) + b) == [c.placeholder] + Placeholders(b)
  {
    var t := Template(c.field);
    TemplateHasNoDollar(c.field);
    var d := NatToString(c.placeholder);
    assert ConditionSql(c) + b == t + ("$" + d + b);
    PlaceholdersSkip(t, "$" + d + b);
    PlaceholderToken(d, b);
    ParsePrinted(c.placeholder);
  }

  function PlaceholderNumbers(cs: seq<Condition>): (ns: seq<nat>)
    ensures |ns| == |cs| && forall k :: 0 <= k < |cs| ==> ns[k] == cs[k].placeholder
    decreases |cs|
  {
    if cs == [] then [] else [cs[0].placeholder] + PlaceholderNumbers(cs[1..])
  }

  /** The conditions joined by `sep`, followed by `tail`, carry their own placeholders and then the tail's. */
  lemma {:induction false} JoinedPlaceholders(cs: seq<Condition>, sep: string, tail: string)
    requires cs != []
    requires '$' !in sep && sep != [] && !IsDigit(sep[0])
    requires tail == [] || !IsDigit(tail[0])
    ensures Placeholders(Join(ConditionTexts(cs), sep) + tail)
            == PlaceholderNumbers(cs) + Placeholders(tail)
    decreases |cs|
  {
    if |cs| == 1 {
      assert ConditionTexts(cs) == [ConditionSql(cs[0])];
      ConditionPlaceholder(cs[0], tail);
    } else {
      var rest := Join(ConditionTexts(cs[1..]), sep) + tail;
      JoinStep(cs, sep, tail);
      JoinedPlaceholders(cs[1..], sep, tail);
      ConditionThenSeparator(cs[0], sep, rest);
      assert PlaceholderNumbers(cs) == [cs[0].placeholder] + PlaceholderNumbers(cs[1..]);
      Combine(Join(ConditionTexts(cs), sep), tail, ConditionSql(cs[0]), sep, rest,
              cs[0].placeholder, PlaceholderNumbers(cs[1..]));
    }
  }

  lemma Combine(joined: string, tail: string, head: string, sep: string, rest: string, p: nat, ns: seq<nat>)
    requires joined + tail == head + (sep + rest)
    requires Placeholders(head + (sep + rest)) == [p] + Placeholders(rest)
    requires Placeholders(rest) == ns + Placeholders(tail)
    ensures Placeholders(joined + tail) == ([p] + ns) + Placeholders(tail)
  {
  }

  lemma JoinStep(cs: seq<Condition>, sep: string, tail: string)
    requires |cs| >= 2
    ensures Join(ConditionTexts(cs), sep) + tail
            == ConditionSql(cs[0]) + (sep + (Join(ConditionTexts(cs[1..]), sep) + tail))
  {
    var restTexts := ConditionTexts(cs[1..]);
    assert ConditionTexts(cs) == [ConditionSql(cs[0])] + restTexts;
    JoinCons(ConditionSql(cs[0]), restTexts, sep);
    ConcatAssoc(ConditionSql(cs[0]), sep, Join(restTexts, sep), tail);
  }

  lemma ConditionThenSeparator(c: Condition, sep: string, rest: string)
    requires '$' !in sep && sep != [] && !IsDigit(sep[0])
    ensures Placeholders(ConditionSql(c) + (sep + rest)) == [c.placeholder] + Placeholders(rest)
  {
    assert (sep + rest)[0] == sep[0];
    ConditionPlaceholder(c, sep + rest);
    PlaceholdersSkip(sep, rest);
  }

  lemma OrderHasNoPlaceholders()
    ensures Placeholders(OrderClause) == []
  {
    FixedTextHasNoDollar();
    PlaceholdersSkip(OrderClause, []);
    assert OrderClause + [] == OrderClause;
  }

  lemma SkipTo(whole: string, a: string, rest: string, ns: seq<nat>)
    requires whole == a + rest && '$' !in a && Placeholders(rest) == ns
    ensures Placeholders(whole) == ns
  {
    PlaceholdersSkip(a, rest);
  }

  lemma ConcatAssoc(a: string, b: string, c: string, d: string)
    ensures (a + b + c) + d == a + (b + (c + d))
  {
  }

  lemma Assoc(a: string, b: string, c: string)
    ensures (a + b) + c == a + (b + c)
  {
  }

  lemma EmptyPrefix(a: string)
    ensures [] + a == a
  {
  }

  lemma ThenNone(whole: string, ns: seq<nat>, tail: string)
    requires Placeholders(whole) == ns + Placeholders(tail) && Placeholders(tail) == []
    ensures Placeholders(whole) == ns
  {
    assert ns + [] == ns;
  }

  /** The WHERE part, followed by the ORDER BY part, carries the conditions' placeholders. */
  lemma WherePlaceholders(cs: seq<Condition>)
    ensures Placeholders(WhereClause(cs) + OrderClause) == PlaceholderNumbers(cs)
  {
    FixedTextHasNoDollar();
    OrderHasNoPlaceholders();
    var ns := PlaceholderNumbers(cs);
    if cs != [] {
      var joined := Join(ConditionTexts(cs), " AND ");
      JoinedPlaceholders(cs, " AND ", OrderClause);
      ThenNone(joined + OrderClause, ns, OrderClause);
      Assoc(" WHERE ", joined, OrderClause);
      SkipTo(WhereClause(cs) + OrderClause, " WHERE ", joined + OrderClause, ns);
    } else {
      EmptyPrefix(OrderClause);
    }
  }

  lemma FramePlaceholders(select: string, middle: string, order: string, ns: seq<nat>)
    requires '$' !in select && Placeholders(middle + order) == ns
    ensures Placeholders(select + middle + order) == ns
  {
    Assoc(select, middle, order);
    PlaceholdersSkip(select, middle + order);
  }

  /** The text of a query carries the placeholders of its conditions, in order. */
  lemma SqlPlaceholders(q: Query)
    ensures Placeholders(Sql(q)) == PlaceholderNumbers(q.conditions)
  {
    FixedTextHasNoDollar();
    WherePlaceholders(q.conditions);
    FramePlaceholders(SelectClause, WhereClause(q.conditions), OrderClause, PlaceholderNumbers(q.conditions));
  }

  /**
   * The placeholders in the query text are `$1`, …, `$n` in order, where n is
   * the number of values: no gap, no repeat, and each lines up with its value.
   */
  lemma PlaceholdersLineUp(f: Filter)
    ensures var q := BuildQuery(f);
            Placeholders(Sql(q)) == seq(|q.values|, k => k + 1)
  {
    SqlPlaceholders(BuildQuery(f));
  }

  // --------------------------------------------------------------- the handler

  /** What the database returned for the query: rows, or an error. */
  datatype DbResult = Rows(rows: seq<JsObject>) | DbFailed

  datatype Response = JsonRows(body: seq<JsObject>) | ServerError(status: nat, error: string)

  /** `{ nickname, msg: content, message_type, created_at }` for one result row. */
  function FormatRow(row: JsObject): (o: JsObject)
    ensures o.Keys == {"nickname", "msg", "message_type", "created_at"}
    ensures o["msg"] == Get(row, "content")
    ensures forall k :: k in {"nickname", "message_type", "created_at"} ==> o[k] == Get(row, k)
  {
    map["nickname" := Get(row, "nickname"), "msg" := Get(row, "content"),
        "message_type" := Get(row, "message_type"), "created_at" := Get(row, "created_at")]
  }

  /** A result row as the database hands it over: the selected columns by name. */
  function RowObject(m: Message): JsObject {
    map["nickname" := JStr(m.nickname), "content" := m.content,
        "message_type" := m.messageType, "created_at" := JTime(m.createdAt)]
  }

  /** A search result has the same shape as a history message, so it reads back to the same row. */
  lemma SearchRowIsWireMessage(m: Message)
    ensures FormatRow(RowObject(m)) == WireMessage(m)
    ensures ParseWire(FormatRow(RowObject(m))) == Some(m)
  {
    WireRoundTrip(m);
  }

  /** `rows.map(…)`: one formatted row per result row, in the same order. */
  function FormatRows(rows: seq<JsObject>): (out: seq<JsObject>)
    ensures |out| == |rows|
    ensures forall i :: 0 <= i < |rows| ==> out[i] == FormatRow(rows[i])
    decreases |rows|
  {
    if rows == [] then [] else [FormatRow(rows[0])] + FormatRows(rows[1..])
  }

  /**
   * `pool.query(query, values)`: the text and parameter list sent to the
   * database. The text numbers its placeholders `$1` … `$n` for the n values,
   * and has a WHERE clause exactly when some value is sent.
   */
  function SearchRequest(f: Filter): (sqlAndValues: (string, seq<string>))
    ensures |sqlAndValues.1| <= 4
    ensures Placeholders(sqlAndValues.0) == seq(|sqlAndValues.1|, k => k + 1)
    ensures Occurs(sqlAndValues.0, " WHERE ") <==> sqlAndValues.1 != []
    ensures forall k :: 0 <= k < |sqlAndValues.1| ==>
              exists field :: Active(f, field) && sqlAndValues.1[k] == Parameter(f, field)
  {
    var q := BuildQuery(f);
    PlaceholdersLineUp(f);
    WhereIffConditions(q);
    (Sql(q), q.values)
  }

  /** The response: the formatted rows, or status 500 with a fixed error text when the query failed. */
  function SearchResponse(result: DbResult): (r: Response)
    ensures result.DbFailed? <==> r.ServerError?
    ensures r.ServerError? ==> r.status == 500
    ensures result.Rows? ==> r == JsonRows(FormatRows(result.rows))
  {
    match result
    case Rows(rows) => JsonRows(FormatRows(rows))
    case DbFailed => ServerError(500, "服务器内部错误")
  }
}
