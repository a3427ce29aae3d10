/** The entity readers: the entity-name canonicaliser, the queries the readers
    send, and how they turn the cursor they get back into records. */
module Entities {
  import opened Nullable
  import opened Strings
  import opened Errors
  import opened DbUtils

  /** `ErrInvalidEntityName`. */
  const ErrInvalidEntityName: Error := New("invalid entity name")

  /** The call site entities.go:`line` of a binary built from `buildDir`. */
  function EntitiesSite(buildDir: string, line: int): Frame {
    Frame(buildDir + "internal/entities.go", line)
  }

  /* ---- canonical entity names ---- */

  /** One character of the class `[a-zA-Z0-9_-]`. */
  predicate IsNameChar(c: char) {
    'a' <= c <= 'z' || 'A' <= c <= 'Z' || '0' <= c <= '9' || c == '_' || c == '-'
  }

  /** The pattern `^[a-zA-Z0-9_-]*$`. */
  predicate MatchesNamePattern(s: string) {
    forall i | 0 <= i < |s| :: IsNameChar(s[i])
  }

  /** One character of the class `[a-z0-9_]`. */
  predicate IsCanonicalChar(c: char) {
    'a' <= c <= 'z' || '0' <= c <= '9' || c == '_'
  }

  /** A name only of lower-case letters, digits and underscores. */
  predicate IsCanonicalName(s: string) {
    forall i | 0 <= i < |s| :: IsCanonicalChar(s[i])
  }

  /** What canonicalisation does to one character: `-` becomes `_`, an
      upper-case letter its lower-case form, anything else stays. */
  function CanonicalChar(c: char): char {
    if c == '-' then '_' else LowerChar(c)
  }

  /** `GetCanonicalEntityName`: a name matching `^[a-zA-Z0-9_-]*$` with every
      `-` replaced by `_` and lower-cased; otherwise "" and the wrapped
      `ErrInvalidEntityName`. */
  function GetCanonicalEntityName(value: string, buildDir: string): (r: Returned<string>)
    ensures r.err.None? <==> MatchesNamePattern(value)
    ensures r.err.Some? ==> r.value == "" && r.err.value == WrapError(ErrInvalidEntityName, EntitiesSite(buildDir, 49))
    ensures r.err.None? ==> |r.value| == |value|
    ensures r.err.None? ==> forall i | 0 <= i < |value| :: r.value[i] == CanonicalChar(value[i])
  {
    if !MatchesNamePattern(value) then
      Returned("", Some(WrapError(ErrInvalidEntityName, EntitiesSite(buildDir, 49))))
    else
      assert "-" == ['-'] && "_" == ['_'];
      ReplaceCharPointwise(value, '-', '_');
      var res := ReplaceAll(value, "-", "_");
      Returned(ToLower(res), None)
  }

  /** A canonicalised name has only characters of `[a-z0-9_]`. */
  lemma CanonicalCharset(value: string, buildDir: string)
    requires GetCanonicalEntityName(value, buildDir).err.None?
    ensures IsCanonicalName(GetCanonicalEntityName(value, buildDir).value)
  {
    var r := GetCanonicalEntityName(value, buildDir).value;
    forall i | 0 <= i < |r| ensures IsCanonicalChar(r[i]) {
      assert IsNameChar(value[i]);
    }
  }

  /** The canonical names are exactly the names canonicalisation accepts and
      leaves unchanged. */
  lemma CanonicalFixedPoints(s: string, buildDir: string)
    ensures IsCanonicalName(s) <==> GetCanonicalEntityName(s, buildDir) == Returned(s, None)
  {
    var r := GetCanonicalEntityName(s, buildDir);
    if IsCanonicalName(s) {
      assert MatchesNamePattern(s) by {
        forall i | 0 <= i < |s| ensures IsNameChar(s[i]) {
          assert IsCanonicalChar(s[i]);
        }
      }
      assert r.value == s;
    }
    if r == Returned(s, None) {
      CanonicalCharset(s, buildDir);
    }
  }

  /** Canonicalising a canonicalised name succeeds and changes nothing. */
  lemma CanonicalIdempotent(value: string, buildDir: string, buildDir': string)
    requires GetCanonicalEntityName(value, buildDir).err.None?
    ensures var c := GetCanonicalEntityName(value, buildDir).value;
            GetCanonicalEntityName(c, buildDir') == Returned(c, None)
  {
    var c := GetCanonicalEntityName(value, buildDir).value;
    CanonicalCharset(value, buildDir);
    CanonicalFixedPoints(c, buildDir');
  }

  /** The error of a rejected name unwraps to `ErrInvalidEntityName` and keeps
      its message in front of the stack entry for entities.go:49. */
  lemma CanonicalRejection(value: string, buildDir: string)
    requires !MatchesNamePattern(value)
    ensures var r := GetCanonicalEntityName(value, buildDir);
            r.value == "" && r.err.Some? && Unwrap(r.err.value) == Some(ErrInvalidEntityName)
            && WrappedErrorMsg(r.err.value) == "invalid entity name"
            && WrappedErrorStack(r.err.value) == FrameText(EntitiesSite(buildDir, 49))
  {
    NoBracketNoMarker(ErrInvalidEntityName.text);
    WrapKeepsMessage(ErrInvalidEntityName, EntitiesSite(buildDir, 49));
    assert Index(ErrInvalidEntityName.text, Marker) == -1;
  }

  /** The empty name is accepted as it is. */
  lemma CanonicalEmpty(buildDir: string)
    ensures GetCanonicalEntityName("", buildDir) == Returned("", None)
  {
  }

  /** `Foo-Bar` becomes `foo_bar`; `foo;bar` is rejected. */
  lemma CanonicalExamples(value: string, bad: string, buildDir: string)
    requires value == "Foo-Bar" && bad == "foo;bar"
    ensures GetCanonicalEntityName(value, buildDir) == Returned("foo_bar", None)
    ensures GetCanonicalEntityName(bad, buildDir).err.Some?
  {
    assert MatchesNamePattern(value) by {
      forall i | 0 <= i < |value| ensures IsNameChar(value[i]) {
      }
    }
    assert !IsNameChar(bad[3]);
    var r := GetCanonicalEntityName(value, buildDir).value;
    assert r == "foo_bar" by {
      assert |r| == 7;
      forall i | 0 <= i < 7 ensures r[i] == "foo_bar"[i] {
        assert r[i] == CanonicalChar(value[i]);
      }
    }
  }

  /* ---- the database the readers talk to ---- */

  /** An open cursor: the rows it yields, in order, and what `rows.Err()`
      reports once `rows.Next()` has returned false. */
  datatype Cursor = Cursor(rows: seq<Row>, err: Option<Error>)

  /** What `Db.Query` returns: an error, or a cursor. */
  datatype QueryResult = QueryFailed(err: Error) | Opened(cursor: Cursor)

  /** The library calls the readers make: `pgx.Identifier{name}.Sanitize()`
      and `Db.Query(query, args...)`. */
  datatype Driver = Driver(sanitize: string -> string, query: (string, seq<int>) -> QueryResult)

  /** `select * from <sanitized name>`. */
  function SelectFrom(driver: Driver, entityName: string): string {
    "select * from " + driver.sanitize(entityName)
  }

  /* ---- GetAllEntities: the query ---- */

  /** `GetAllOptions`: the page size and the number of rows to skip. */
  datatype GetAllOptions = GetAllOptions(take: int, skip: int)

  /** A paging clause ` keyword $n` and the argument its placeholder binds. */
  datatype Clause = Clause(keyword: string, arg: int)

  /** The paging clauses the options ask for, offset before limit, each only
      when its count is positive. */
  function PagingClauses(options: Option<GetAllOptions>): seq<Clause> {
    (if options.Some? && options.value.skip > 0 then [Clause("offset", options.value.skip)] else [])
    + (if options.Some? && options.value.take > 0 then [Clause("limit", options.value.take)] else [])
  }

  /** One clause as `fmt.Sprintf(" offset $%d", n)` writes it: the keyword
      and the placeholder numbered `n`. */
  function ClauseText(keyword: string, n: int): string {
    " " + keyword + " $" + IntToString(n)
  }

  /** The clauses, with placeholders numbered on from `first`. */
  function RenderClauses(cs: seq<Clause>, first: int): string
    decreases |cs|
  {
    if |cs| == 0 then ""
    else ClauseText(cs[0].keyword, first) + RenderClauses(cs[1..], first + 1)
  }

  /** The arguments the clauses bind, in placeholder order. */
  function ClauseArgs(cs: seq<Clause>): (args: seq<int>)
    ensures |args| == |cs| && forall i | 0 <= i < |cs| :: args[i] == cs[i].arg
  {
    seq(|cs|, i requires 0 <= i < |cs| => cs[i].arg)
  }

  /** The query text `GetAllEntities` sends, with its placeholders $1..$n. */
  function GetAllQuery(driver: Driver, entityName: string, options: Option<GetAllOptions>): string {
    SelectFrom(driver, entityName) + RenderClauses(PagingClauses(options), 1)
  }

  /** The arguments `GetAllEntities` binds. */
  function GetAllArgs(options: Option<GetAllOptions>): seq<int> {
    ClauseArgs(PagingClauses(options))
  }

  /** The query construction of `GetAllEntities`: the argument list and the
      query text grow together, each placeholder numbered by the count of
      arguments appended so far. */
  method BuildGetAllQuery(driver: Driver, entityName: string, options: Option<GetAllOptions>)
    returns (query: string, queryArgs: seq<int>)
    ensures query == GetAllQuery(driver, entityName, options)
    ensures queryArgs == GetAllArgs(options)
  {
    query := SelectFrom(driver, entityName);
    queryArgs := [];
    ghost var cs: seq<Clause> := [];

    if options.Some? && options.value.skip > 0 {
      queryArgs := queryArgs + [options.value.skip];
      query := query + ClauseText("offset", |queryArgs|);
      cs := cs + [Clause("offset", options.value.skip)];
      RenderSnoc([], Clause("offset", options.value.skip), 1);
      Regroup(SelectFrom(driver, entityName), RenderClauses([], 1), ClauseText("offset", 1));
    }
    assert query == SelectFrom(driver, entityName) + RenderClauses(cs, 1);
    assert queryArgs == ClauseArgs(cs) && |cs| <= 1;

    if options.Some? && options.value.take > 0 {
      ghost var before := cs;
      queryArgs := queryArgs + [options.value.take];
      query := query + ClauseText("limit", |queryArgs|);
      cs := cs + [Clause("limit", options.value.take)];
      RenderSnoc(before, Clause("limit", options.value.take), 1);
      Regroup(SelectFrom(driver, entityName), RenderClauses(before, 1), ClauseText("limit", |queryArgs|));
    }
    assert cs == PagingClauses(options);
  }

  /** Rendering one more clause appends it with the next placeholder number. */
  lemma {:induction false} RenderSnoc(cs: seq<Clause>, c: Clause, first: int)
    ensures RenderClauses(cs + [c], first) == RenderClauses(cs, first) + ClauseText(c.keyword, first + |cs|)
    decreases |cs|
  {
    if |cs| > 0 {
      assert (cs + [c])[0] == cs[0];
      assert (cs + [c])[1..] == cs[1..] + [c];
      RenderSnoc(cs[1..], c, first + 1);
      Regroup(ClauseText(cs[0].keyword, first), RenderClauses(cs[1..], first + 1), ClauseText(c.keyword, first + |cs|));
    } else {
      assert cs + [c] == [c];
      assert [c][1..] == [];
    }
  }

  /** The query and arguments for every combination of options: offset before
      limit, placeholders $1..$n in argument order, nothing for nil options or
      counts that are not positive. */
  lemma GetAllQueryCases(driver: Driver, entityName: string, options: Option<GetAllOptions>)
    ensures var base := SelectFrom(driver, entityName);
            var skip := options.Some? && options.value.skip > 0;
            var take := options.Some? && options.value.take > 0;
            && (skip && take ==>
                  GetAllQuery(driver, entityName, options) == base + " offset $1 limit $2"
                  && GetAllArgs(options) == [options.value.skip, options.value.take])
            && (skip && !take ==>
                  GetAllQuery(driver, entityName, options) == base + " offset $1"
                  && GetAllArgs(options) == [options.value.skip])
            && (!skip && take ==>
                  GetAllQuery(driver, entityName, options) == base + " limit $1"
                  && GetAllArgs(options) == [options.value.take])
            && (!skip && !take ==>
                  GetAllQuery(driver, entityName, options) == base && GetAllArgs(options) == [])
  {
    var cs := PagingClauses(options);
    if options.Some? {
      var o := options.value;
      if o.skip > 0 && o.take > 0 {
        assert cs == [Clause("offset", o.skip), Clause("limit", o.take)];
        RenderTwo(o.skip, o.take);
      } else if o.skip > 0 {
        assert cs == [Clause("offset", o.skip)];
        RenderOne("offset", o.skip);
      } else if o.take > 0 {
        assert cs == [Clause("limit", o.take)];
        RenderOne("limit", o.take);
      }
    }
  }

  /** A lone clause takes placeholder $1. */
  lemma RenderOne(keyword: string, arg: int)
    ensures RenderClauses([Clause(keyword, arg)], 1) == " " + keyword + " $1"
  {
    assert IntToString(1) == "1";
    assert [Clause(keyword, arg)][1..] == [];
  }

  /** Offset then limit take placeholders $1 and $2. */
  lemma RenderTwo(skip: int, take: int)
    ensures RenderClauses([Clause("offset", skip), Clause("limit", take)], 1) == " offset $1 limit $2"
  {
    var cs := [Clause("offset", skip), Clause("limit", take)];
    assert IntToString(2) == "2";
    assert cs[1..] == [Clause("limit", take)];
    assert cs[1..][1..] == [];
    RenderOne("offset", skip);
    assert RenderClauses(cs, 1) == " offset $1" + RenderClauses(cs[1..], 2);
  }

  /* ---- GetAllEntities: the rows ---- */

  /** The index of the first row whose scan fails, if any. */
  function FirstScanFailure(rows: seq<Row>): (k: Option<nat>)
    ensures k.None? <==> forall i | 0 <= i < |rows| :: rows[i].Scanned?
    ensures k.Some? ==> k.value < |rows| && rows[k.value].ScanFailed?
                        && forall i | 0 <= i < k.value :: rows[i].Scanned?
    decreases |rows|
  {
    if |rows| == 0 then None
    else if rows[0].ScanFailed? then Some(0)
    else match FirstScanFailure(rows[1..])
      case None => None
      case Some(k) => Some(k + 1)
  }

  /** The record of each row, in cursor order. */
  function Records(rows: seq<Row>): (recs: seq<Record>)
    requires forall i | 0 <= i < |rows| :: rows[i].Scanned?
    ensures |recs| == |rows|
  {
    seq(|rows|, i requires 0 <= i < |rows| => RowMap(rows[i].columns))
  }

  /** The outcome of `GetAllEntities` for what `Db.Query` returned. */
  function GetAllOutcome(result: QueryResult, buildDir: string): Returned<Option<seq<Record>>> {
    match result
    case QueryFailed(e) => Returned(None, Some(WrapError(e, EntitiesSite(buildDir, 110))))
    case Opened(c) =>
      match FirstScanFailure(c.rows)
      case None => Returned(Some(Records(c.rows)), None)
      case Some(k) =>
        Returned(None, Some(WrapError(WrapError(c.rows[k].err, DbUtilsSite(buildDir, 18)), EntitiesSite(buildDir, 117))))
  }

  /** `GetAllEntities`: build the paged query, send it, and decode the rows
      one by one, stopping at the first row that fails to decode. */
  method GetAllEntities(driver: Driver, entityName: string, options: Option<GetAllOptions>, buildDir: string)
    returns (res: Option<seq<Record>>, err: Option<Error>)
    ensures Returned(res, err)
         == GetAllOutcome(driver.query(GetAllQuery(driver, entityName, options), GetAllArgs(options)), buildDir)
  {
    var list: seq<Record> := [];
    var query, queryArgs := BuildGetAllQuery(driver, entityName, options);

    var result := driver.query(query, queryArgs);
    if result.QueryFailed? {
      return None, Some(WrapError(result.err, EntitiesSite(buildDir, 110)));
    }

    var rows := result.cursor.rows;
    var i := 0;
    while i < |rows|
      invariant 0 <= i <= |rows|
      invariant forall j | 0 <= j < i :: rows[j].Scanned?
      invariant list == Records(rows[..i])
    {
      var rowRes, rowErr := ConvertDbRowToMap(rows[i], buildDir);
      if rowErr.Some? {
        assert FirstScanFailure(rows) == Some(i) by {
          FirstScanFailureIs(rows, i);
        }
        return None, Some(WrapError(rowErr.value, EntitiesSite(buildDir, 117)));
      }
      list := list + [rowRes.value];
      i := i + 1;
    }
    assert rows[..i] == rows;
    return Some(list), None;
  }

  /** The first failing row is the one the scan-failure search finds. */
  lemma {:induction false} FirstScanFailureIs(rows: seq<Row>, k: nat)
    requires k < |rows| && rows[k].ScanFailed?
    requires forall i | 0 <= i < k :: rows[i].Scanned?
    ensures FirstScanFailure(rows) == Some(k)
    decreases k
  {
    if k > 0 {
      FirstScanFailureIs(rows[1..], k - 1);
    }
  }

  /** With every row decodable, the readers return one record per row, in
      cursor order, each the row's column map; no rows give an empty list. */
  lemma GetAllRecords(rows: seq<Row>, cursorErr: Option<Error>, buildDir: string)
    requires forall i | 0 <= i < |rows| :: rows[i].Scanned?
    ensures var r := GetAllOutcome(Opened(Cursor(rows, cursorErr)), buildDir);
            r.err.None? && r.value.Some? && |r.value.value| == |rows|
            && forall i | 0 <= i < |rows| :: r.value.value[i] == RowMap(rows[i].columns)
  {
  }

  /** `GetAllEntities` never returns a partial list: it has a list exactly
      when it has no error, and a failed query or any row that fails to
      decode makes it fail. */
  lemma GetAllNoPartialList(result: QueryResult, buildDir: string)
    ensures var r := GetAllOutcome(result, buildDir);
            (r.value.Some? <==> r.err.None?)
            && (result.QueryFailed? ==> r.value.None? && r.err.Some?)
            && (result.Opened? && (exists i | 0 <= i < |result.cursor.rows| :: result.cursor.rows[i].ScanFailed?)
                ==> r.err.Some?)
  {
  }

  /** A failed query gives a nil list and the query error with its message
      kept and the entities.go:110 entry in front of its stack. */
  lemma GetAllQueryError(e: Error, buildDir: string)
    requires !Contains(Root(e).text, Marker)
    ensures var r := GetAllOutcome(QueryFailed(e), buildDir);
            r.value.None? && r.err.Some? && Unwrap(r.err.value) == Some(Root(e))
            && WrappedErrorMsg(r.err.value) == Root(e).text
            && WrappedErrorStack(r.err.value) == FrameText(EntitiesSite(buildDir, 110)) + WrappedErrorStack(e)
  {
    WrapKeepsMessage(e, EntitiesSite(buildDir, 110));
  }

  /** A row that fails to decode is reported with its message kept and two
      entries in front of its stack: entities.go:117, then db_utils.go:18. */
  lemma GetAllRowError(result: QueryResult, buildDir: string)
    requires result.Opened? && FirstScanFailure(result.cursor.rows).Some?
    requires var e := result.cursor.rows[FirstScanFailure(result.cursor.rows).value].err;
             !Contains(Root(e).text, Marker)
    ensures var e := result.cursor.rows[FirstScanFailure(result.cursor.rows).value].err;
            var r := GetAllOutcome(result, buildDir);
            r.err.Some? && Unwrap(r.err.value) == Some(Root(e))
            && WrappedErrorMsg(r.err.value) == Root(e).text
            && WrappedErrorStack(r.err.value)
               == FrameText(EntitiesSite(buildDir, 117)) + FrameText(DbUtilsSite(buildDir, 18)) + WrappedErrorStack(e)
  {
    var e := result.cursor.rows[FirstScanFailure(result.cursor.rows).value].err;
    ErrorThroughDecoder(e, buildDir, 117);
  }

  /** A scan error passed up through the decoder and one reader wrap. */
  lemma ErrorThroughDecoder(e: Error, buildDir: string, line: int)
    requires !Contains(Root(e).text, Marker)
    ensures var w := WrapError(WrapError(e, DbUtilsSite(buildDir, 18)), EntitiesSite(buildDir, line));
            Unwrap(w) == Some(Root(e))
            && WrappedErrorMsg(w) == Root(e).text
            && WrappedErrorStack(w)
               == FrameText(EntitiesSite(buildDir, line)) + FrameText(DbUtilsSite(buildDir, 18)) + WrappedErrorStack(e)
  {
    WrapTwice(e, DbUtilsSite(buildDir, 18), EntitiesSite(buildDir, line));
  }

  /* ---- GetSingleEntity ---- */

  /** The query text `GetSingleEntity` sends; its one argument is the id. */
  function SingleQuery(driver: Driver, entityName: string): string {
    SelectFrom(driver, entityName) + " where id=$1"
  }

  /** The outcome of `GetSingleEntity` for what `Db.Query` returned. */
  function GetSingleOutcome(result: QueryResult, buildDir: string): Returned<Option<Record>> {
    match result
    case QueryFailed(e) => Returned(Some(map[]), Some(WrapError(e, EntitiesSite(buildDir, 73))))
    case Opened(c) =>
      if |c.rows| == 0 then Returned(None, None)
      else
        match c.rows[0]
        case Scanned(columns) => Returned(Some(RowMap(columns)), None)
        case ScanFailed(_, e) =>
          Returned(None, Some(WrapError(WrapError(e, DbUtilsSite(buildDir, 18)), EntitiesSite(buildDir, 84))))
  }

  /** `GetSingleEntity`: query by id and decode the first row, if any. */
  method GetSingleEntity(driver: Driver, entityName: string, id: int, buildDir: string)
    returns (res: Option<Record>, err: Option<Error>)
    ensures Returned(res, err) == GetSingleOutcome(driver.query(SingleQuery(driver, entityName), [id]), buildDir)
  {
    res := Some(map[]);
    var query := SelectFrom(driver, entityName) + " where id=$1";
    var result := driver.query(query, [id]);
    if result.QueryFailed? {
      return res, Some(WrapError(result.err, EntitiesSite(buildDir, 73)));
    }

    var rows := result.cursor.rows;
    var hasRow := |rows| > 0;
    if !hasRow {
      return None, None;
    }

    var rowErr;
    res, rowErr := ConvertDbRowToMap(rows[0], buildDir);
    if rowErr.Some? {
      return None, Some(WrapError(rowErr.value, EntitiesSite(buildDir, 84)));
    }
    return res, None;
  }

  /** Once the query ran, "absent" (nil, nil) means exactly an empty cursor. */
  lemma GetSingleAbsent(c: Cursor, buildDir: string)
    ensures GetSingleOutcome(Opened(c), buildDir) == Returned(None, None) <==> |c.rows| == 0
  {
  }

  /** Only the first row is read: the rows after it change nothing. */
  lemma GetSingleFirstRowOnly(row: Row, rest: seq<Row>, e1: Option<Error>, e2: Option<Error>, buildDir: string)
    ensures GetSingleOutcome(Opened(Cursor([row] + rest, e1)), buildDir)
         == GetSingleOutcome(Opened(Cursor([row], e2)), buildDir)
  {
  }

  /** A failed query gives a non-nil empty record beside its error. */
  lemma GetSingleQueryError(e: Error, buildDir: string)
    requires !Contains(Root(e).text, Marker)
    ensures var r := GetSingleOutcome(QueryFailed(e), buildDir);
            r.value == Some(map[]) && r.err.Some?
            && WrappedErrorMsg(r.err.value) == Root(e).text
            && WrappedErrorStack(r.err.value) == FrameText(EntitiesSite(buildDir, 73)) + WrappedErrorStack(e)
  {
    WrapKeepsMessage(e, EntitiesSite(buildDir, 73));
  }

  /** A first row that fails to decode gives no record and the scan error
      with entities.go:84 and db_utils.go:18 in front of its stack. */
  lemma GetSingleRowError(c: Cursor, buildDir: string)
    requires |c.rows| > 0 && c.rows[0].ScanFailed? && !Contains(Root(c.rows[0].err).text, Marker)
    ensures var e := c.rows[0].err;
            var r := GetSingleOutcome(Opened(c), buildDir);
            r.value.None? && r.err.Some?
            && WrappedErrorMsg(r.err.value) == Root(e).text
            && WrappedErrorStack(r.err.value)
               == FrameText(EntitiesSite(buildDir, 84)) + FrameText(DbUtilsSite(buildDir, 18)) + WrappedErrorStack(e)
  {
    var e := c.rows[0].err;
    var w := WrapError(WrapError(e, DbUtilsSite(buildDir, 18)), EntitiesSite(buildDir, 84));
    assert GetSingleOutcome(Opened(c), buildDir) == Returned(None, Some(w));
    ErrorThroughDecoder(e, buildDir, 84);
  }

  /** A first row that decodes is returned as its column map with a nil
      error. */
  lemma GetSingleDecodes(c: Cursor, buildDir: string)
    requires |c.rows| > 0 && c.rows[0].Scanned?
    ensures GetSingleOutcome(Opened(c), buildDir) == Returned(Some(RowMap(c.rows[0].columns)), None)
  {
  }

  /** The record `GetSingleEntity` decodes, with a nil error, is the first
      record `GetAllEntities` would list for the same cursor. */
  lemma SingleIsFirstOfAll(c: Cursor, buildDir: string)
    requires |c.rows| > 0 && forall i | 0 <= i < |c.rows| :: c.rows[i].Scanned?
    ensures GetSingleOutcome(Opened(c), buildDir)
         == Returned(Some(GetAllOutcome(Opened(c), buildDir).value.value[0]), None)
  {
  }

  /* ---- the handlers' path into the readers ---- */

  /** The query and arguments the `EntityGetAll` handler makes
      `GetAllEntities` send for the route parameter `rawName`: the name is
      canonicalised first, and a rejected name sends nothing. */
  function EntityGetAllRequest(driver: Driver, rawName: string, options: GetAllOptions, buildDir: string)
    : (q: Option<(string, seq<int>)>)
    ensures q.Some? <==> MatchesNamePattern(rawName)
  {
    var c := GetCanonicalEntityName(rawName, buildDir);
    if c.err.Some? then None
    else Some((GetAllQuery(driver, c.value, Some(options)), GetAllArgs(Some(options))))
  }

  /** What the `EntityGetAll` handler passes on to its error or JSON output:
      the canonicaliser's error, or the outcome of `GetAllEntities` on the
      canonical name. */
  function EntityGetAll(driver: Driver, rawName: string, options: GetAllOptions, buildDir: string)
    : Returned<Option<seq<Record>>>
  {
    match EntityGetAllRequest(driver, rawName, options, buildDir)
    case None => Returned(None, GetCanonicalEntityName(rawName, buildDir).err)
    case Some(req) => GetAllOutcome(driver.query(req.0, req.1), buildDir)
  }

  /** The query the `EntityGet` handler makes `GetSingleEntity` send for the
      route parameter `rawName`; a rejected name sends nothing. */
  function EntityGetRequest(driver: Driver, rawName: string, id: int, buildDir: string)
    : (q: Option<(string, seq<int>)>)
    ensures q.Some? <==> MatchesNamePattern(rawName)
  {
    var c := GetCanonicalEntityName(rawName, buildDir);
    if c.err.Some? then None
    else Some((SingleQuery(driver, c.value), [id]))
  }

  /** What the `EntityGet` handler passes on to its error or JSON output. */
  function EntityGet(driver: Driver, rawName: string, id: int, buildDir: string): Returned<Option<Record>> {
    match EntityGetRequest(driver, rawName, id, buildDir)
    case None => Returned(None, GetCanonicalEntityName(rawName, buildDir).err)
    case Some(req) => GetSingleOutcome(driver.query(req.0, req.1), buildDir)
  }

  /** On the `EntityGetAll` path a name outside `[A-Za-z0-9_-]*` sends no
      query and yields the wrapped `ErrInvalidEntityName`; any other name is
      canonical by the time it reaches `sanitize` and the query. */
  lemma EntityGetAllPath(driver: Driver, rawName: string, options: GetAllOptions, buildDir: string)
    ensures !MatchesNamePattern(rawName) ==>
              EntityGetAllRequest(driver, rawName, options, buildDir).None?
              && EntityGetAll(driver, rawName, options, buildDir)
                 == Returned(None, Some(WrapError(ErrInvalidEntityName, EntitiesSite(buildDir, 49))))
    ensures MatchesNamePattern(rawName) ==>
              var c := GetCanonicalEntityName(rawName, buildDir).value;
              IsCanonicalName(c)
              && EntityGetAllRequest(driver, rawName, options, buildDir)
                 == Some((GetAllQuery(driver, c, Some(options)), GetAllArgs(Some(options))))
              && EntityGetAll(driver, rawName, options, buildDir)
                 == GetAllOutcome(driver.query(GetAllQuery(driver, c, Some(options)), GetAllArgs(Some(options))), buildDir)
  {
    if MatchesNamePattern(rawName) {
      CanonicalCharset(rawName, buildDir);
    }
  }

  /** On the `EntityGet` path a rejected name sends no query; any other name
      reaches `sanitize` and the query in canonical form. */
  lemma EntityGetPath(driver: Driver, rawName: string, id: int, buildDir: string)
    ensures !MatchesNamePattern(rawName) ==>
              EntityGetRequest(driver, rawName, id, buildDir).None?
              && EntityGet(driver, rawName, id, buildDir)
                 == Returned(None, Some(WrapError(ErrInvalidEntityName, EntitiesSite(buildDir, 49))))
    ensures MatchesNamePattern(rawName) ==>
              var c := GetCanonicalEntityName(rawName, buildDir).value;
              IsCanonicalName(c)
              && EntityGetRequest(driver, rawName, id, buildDir) == Some((SingleQuery(driver, c), [id]))
              && EntityGet(driver, rawName, id, buildDir)
                 == GetSingleOutcome(driver.query(SingleQuery(driver, c), [id]), buildDir)
  {
    if MatchesNamePattern(rawName) {
      CanonicalCharset(rawName, buildDir);
    }
  }

  /* ---- the cursor's deferred error ---- */

  /** `GetSingleEntity` with `rows.Err()` consulted when `rows.Next()` finds
      no row, reported from entities.go:78. */
  function GetSingleOutcomeChecked(result: QueryResult, buildDir: string): Returned<Option<Record>> {
    if result.Opened? && |result.cursor.rows| == 0 && result.cursor.err.Some? then
      Returned(None, Some(WrapError(result.cursor.err.value, EntitiesSite(buildDir, 78))))
    else GetSingleOutcome(result, buildDir)
  }

  /** `GetAllEntities` with `rows.Err()` consulted after the loop, reported
      from entities.go:121. */
  function GetAllOutcomeChecked(result: QueryResult, buildDir: string): Returned<Option<seq<Record>>> {
    if result.Opened? && FirstScanFailure(result.cursor.rows).None? && result.cursor.err.Some? then
      Returned(None, Some(WrapError(result.cursor.err.value, EntitiesSite(buildDir, 121))))
    else GetAllOutcome(result, buildDir)
  }

  /** As written, a cursor that ends in an error before any row reads as an
      absent entity, and one that ends in an error after some rows reads as a
      complete list of them. */
  lemma CursorErrorHidden(rows: seq<Row>, e: Error, buildDir: string)
    requires forall i | 0 <= i < |rows| :: rows[i].Scanned?
    ensures GetSingleOutcome(Opened(Cursor([], Some(e))), buildDir) == Returned(None, None)
    ensures GetAllOutcome(Opened(Cursor(rows, Some(e))), buildDir) == Returned(Some(Records(rows)), None)
  {
  }

  /** With the cursor's error consulted, an entity is absent only when the
      cursor ended cleanly, a list is returned only when it did, and the
      error reported is the cursor's; on a clean cursor nothing changes. */
  lemma CheckedReportsCursorError(result: QueryResult, buildDir: string)
    ensures result.Opened? ==>
              (GetSingleOutcomeChecked(result, buildDir) == Returned(None, None)
               <==> |result.cursor.rows| == 0 && result.cursor.err.None?)
    ensures result.Opened? && result.cursor.err.Some? ==>
              GetAllOutcomeChecked(result, buildDir).value.None? && GetAllOutcomeChecked(result, buildDir).err.Some?
    ensures result.Opened? && result.cursor.err.Some? && FirstScanFailure(result.cursor.rows).None? ==>
              Unwrap(GetAllOutcomeChecked(result, buildDir).err.value) == Some(Root(result.cursor.err.value))
    ensures result.QueryFailed? || result.cursor.err.None? ==>
              GetSingleOutcomeChecked(result, buildDir) == GetSingleOutcome(result, buildDir)
              && GetAllOutcomeChecked(result, buildDir) == GetAllOutcome(result, buildDir)
  {
  }
}
