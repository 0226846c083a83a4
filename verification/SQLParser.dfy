/** The tokenizer loop and the recursive-descent routines that share a cursor. */
module SQLParsing {
  import opened Tokens
  import opened SQLGrammar

  datatype ParseResult = ParseResult(kind: StatementType, attributes: Attributes, tokens: seq<string>,
                                     success: bool, error: string)

  function Started(kind: StatementType): ParseResult {
    ParseResult(kind, map[], [], true, "")
  }

  function Failed(result: ParseResult, error: string): ParseResult {
    result.(success := false, error := error)
  }

  /** A parse ends with the given error, none being success, and with exactly the attributes read so far. */
  predicate Outcome(result: ParseResult, kind: StatementType, error: string, attributes: Attributes) {
    result == ParseResult(kind, attributes, [], error == "", error)
  }

  lemma Regroup(a: seq<string>, b: seq<string>, c: seq<string>)
    ensures a + (b + c) == (a + b) + c
  {
  }

  /** Ending the token begun so far, if any. */
  method EndToken(tokens: seq<string>, current: string) returns (longer: seq<string>)
    ensures longer == tokens + Flush(current)
  {
    longer := tokens;
    if current != "" {
      longer := longer + [current];
    }
  }

  /** One character outside quotations; `taken` counts the characters used. */
  method ScanOutside(sql: string, i: nat, tokens: seq<string>, current: string)
    returns (longer: seq<string>, begun: string, opens: bool, taken: nat)
    requires i < |sql|
    ensures 1 <= taken <= |sql| - i
    ensures longer + Lex(sql[i + taken..], begun, if opens then Inside(sql[i]) else Outside)
            == tokens + Lex(sql[i..], current, Outside)
  {
    var c := sql[i];
    ghost var rest := sql[i..];
    assert rest[0] == c && rest[1..] == sql[i + 1..];
    opens, taken := false, 1;
    if c == '\'' || c == '\"' {
      longer := EndToken(tokens, current);
      begun, opens := [c], true;
      Regroup(tokens, Flush(current), Lex(sql[i + 1..], [c], Inside(c)));
    } else if IsSpace(c) {
      longer := EndToken(tokens, current);
      begun := "";
      Regroup(tokens, Flush(current), Lex(sql[i + 1..], "", Outside));
    } else if IsSpecial(c) {
      longer := EndToken(tokens, current);
      begun := "";
      LexSpecial(rest, current);
      if TakesEquals(c) && i + 1 < |sql| && sql[i + 1] == '=' {
        assert rest[..2] == [c, '='] && rest[2..] == sql[i + 2..];
        Regroup(tokens, Flush(current), [[c, '=']] + Lex(sql[i + 2..], "", Outside));
        Regroup(longer, [[c, '=']], Lex(sql[i + 2..], "", Outside));
        longer := longer + [[c, '=']];
        taken := 2;
      } else {
        assert rest[..1] == [c];
        Regroup(tokens, Flush(current), [[c]] + Lex(sql[i + 1..], "", Outside));
        Regroup(longer, [[c]], Lex(sql[i + 1..], "", Outside));
        longer := longer + [[c]];
      }
    } else {
      longer, begun := tokens, current + [c];
    }
  }

  /** One character inside a quotation. */
  method ScanInside(sql: string, i: nat, tokens: seq<string>, current: string, quoteChar: char)
    returns (longer: seq<string>, begun: string, closed: bool, taken: nat)
    requires i < |sql|
    ensures 1 <= taken <= |sql| - i
    ensures longer + Lex(sql[i + taken..], begun, if closed then Outside else Inside(quoteChar))
            == tokens + Lex(sql[i..], current, Inside(quoteChar))
  {
    var c := sql[i];
    ghost var rest := sql[i..];
    assert rest[0] == c && rest[1..] == sql[i + 1..];
    longer, begun, closed, taken := tokens, current + [c], false, 1;
    if c == quoteChar {
      if i + 1 < |sql| && sql[i + 1] == quoteChar {
        assert rest[1] == quoteChar && rest[2..] == sql[i + 2..];
        begun, taken := current + [c, c], 2;
      } else {
        Regroup(tokens, [current + [c]], Lex(sql[i + 1..], "", Outside));
        longer, begun, closed := tokens + [current + [c]], "", true;
      }
    }
  }

  method Tokenize(sql: string) returns (tokens: seq<string>)
    ensures tokens == Lex(sql, "", Outside)
    ensures WellFormed(tokens) && Concat(tokens) == Squeezed(sql, Outside)
    ensures exists pieces :: ProperText(pieces) && TextOf(pieces) == sql && Spellings(pieces) == tokens
  {
    hide ProperText, TextOf, Spellings, Squeezed, Concat;
    tokens := [];
    var current, inQuotes, quoteChar := "", false, '\0';
    var i := 0;
    assert sql[0..] == sql;
    while i < |sql|
      invariant 0 <= i <= |sql|
      invariant tokens + Lex(sql[i..], current, if inQuotes then Inside(quoteChar) else Outside) == Lex(sql, "", Outside)
    {
      var taken;
      if inQuotes {
        var closed;
        tokens, current, closed, taken := ScanInside(sql, i, tokens, current, quoteChar);
        inQuotes := !closed;
      } else {
        quoteChar := sql[i];
        tokens, current, inQuotes, taken := ScanOutside(sql, i, tokens, current);
      }
      i := i + taken;
    }
    assert sql[i..] == "";
    tokens := EndToken(tokens, current);
    LexWellFormed(sql, "", Outside);
    Conservation(sql, "", Outside);
    NoneEmpty(tokens);
    tokens := RemoveEmpty(tokens);
    TokensOfText(sql);
  }

  method RemoveEmpty(tokens: seq<string>) returns (kept: seq<string>)
    ensures "" !in tokens ==> kept == tokens
    ensures "" !in kept
  {
    kept := [];
    for i := 0 to |tokens|
      invariant "" !in kept && ("" !in tokens ==> kept == tokens[..i])
    {
      if tokens[i] != "" {
        kept := kept + [tokens[i]];
      }
    }
  }

  method JoinList(items: seq<string>) returns (text: string)
    ensures text == JoinCommas(items)
  {
    text := "";
    for i := 0 to |items|
      invariant text == JoinCommas(items[..i])
    {
      assert items[..i + 1][..i] == items[..i];
      if i > 0 {
        text := text + ",";
      }
      text := text + items[i];
    }
    assert items[..|items|] == items;
  }

  /** The part of a list read so far holds `items` and does not contain the list's end. */
  ghost predicate Reading(ts: seq<string>, from: nat, next: nat, items: seq<string>, columns: bool) {
    && from <= next <= |ts|
    && ListEnd(ts, from, columns) == ListEnd(ts, next, columns)
    && items == DropCommas(ts[from..next])
  }

  lemma ReadStep(ts: seq<string>, from: nat, next: nat, items: seq<string>, columns: bool)
    requires Reading(ts, from, next, items, columns) && next < |ts|
    requires ts[next] != ")" && !(columns && ClauseKeyword(ts[next]))
    ensures Reading(ts, from, next + 1, items + if ts[next] == "," then [] else [ts[next]], columns)
  {
    assert ts[from..next + 1][..next - from] == ts[from..next];
  }

  lemma ReadEnd(ts: seq<string>, from: nat, next: nat, items: seq<string>, columns: bool)
    requires Reading(ts, from, next, items, columns)
    requires next == |ts| || ts[next] == ")" || (columns && ClauseKeyword(ts[next]))
    ensures items == ListItems(ts, from, columns)
    ensures ListNext(ts, from, columns) == if next < |ts| && ts[next] == ")" then next + 1 else next
  {
  }

  /** The loop of a column list. */
  method ReadColumns(tokens: seq<string>, from: nat) returns (columns: seq<string>, next: nat)
    requires from <= |tokens|
    ensures columns == ListItems(tokens, from, true) && next == ListNext(tokens, from, true)
  {
    columns, next := [], from;
    while next < |tokens|
      invariant Reading(tokens, from, next, columns, true)
    {
      var token := tokens[next];
      if token == ")" {
        ReadEnd(tokens, from, next, columns, true);
        return columns, next + 1;
      }
      if token == "," {
        CommaIsNoKeyword();
        ReadStep(tokens, from, next, columns, true);
        next := next + 1;
        continue;
      }
      var upper := ToUpper(token);
      if upper == "FROM" || upper == "WHERE" || upper == "VALUES" || upper == "SET" {
        ReadEnd(tokens, from, next, columns, true);
        return;
      }
      ReadStep(tokens, from, next, columns, true);
      columns, next := columns + [token], next + 1;
      if next < |tokens| && tokens[next] == "," {
        CommaIsNoKeyword();
        ReadStep(tokens, from, next, columns, true);
        next := next + 1;
      } else if next < |tokens| && tokens[next] == ")" {
        ReadEnd(tokens, from, next, columns, true);
        return columns, next + 1;
      }
    }
    ReadEnd(tokens, from, next, columns, true);
  }

  method ParseColumnList(tokens: seq<string>, pos: nat) returns (columns: seq<string>, next: nat)
    ensures columns == Columns(tokens, pos) && next == ColumnsNext(tokens, pos)
    ensures columns != ["*"] ==> forall c :: c in columns ==> NoClauseWord(c)
  {
    hide NoClauseWord;
    if pos >= |tokens| {
      return [], pos;
    }
    if tokens[pos] == "*" {
      return ["*"], pos + 1;
    }
    next := pos;
    if tokens[pos] == "(" {
      next := next + 1;
    }
    ColumnsAreNoClauses(tokens, next);
    columns, next := ReadColumns(tokens, next);
  }

  /** The loop of a value list. */
  method ReadValues(tokens: seq<string>, from: nat) returns (values: seq<string>, next: nat)
    requires from <= |tokens|
    ensures values == ListItems(tokens, from, false) && next == ListNext(tokens, from, false)
  {
    values, next := [], from;
    while next < |tokens|
      invariant Reading(tokens, from, next, values, false)
    {
      var token := tokens[next];
      if token == ")" {
        ReadEnd(tokens, from, next, values, false);
        return values, next + 1;
      }
      ReadStep(tokens, from, next, values, false);
      if token == "," {
        next := next + 1;
        continue;
      }
      values, next := values + [token], next + 1;
    }
    ReadEnd(tokens, from, next, values, false);
  }

  method ParseValueList(tokens: seq<string>, pos: nat) returns (values: seq<string>, next: nat)
    ensures values == Values(tokens, pos)
    ensures next == if pos < |tokens| then ListNext(tokens, ValuesFrom(tokens, pos), false) else pos
  {
    if pos >= |tokens| {
      return [], pos;
    }
    next := pos;
    var upper := ToUpper(tokens[pos]);
    if upper == "VALUES" {
      next := next + 1;
    }
    if next < |tokens| && tokens[next] == "(" {
      next := next + 1;
    }
    values, next := ReadValues(tokens, next);
  }

  lemma PartsAdded(read: Attributes, column: string, op: string, value: string)
    ensures read["where_column" := column] == read + map["where_column" := column]
    ensures read["where_column" := column]["where_operator" := op]
         == read + map["where_column" := column, "where_operator" := op]
    ensures read["where_column" := column]["where_operator" := op]["where_value" := value]
         == read + map["where_column" := column, "where_operator" := op, "where_value" := value]
  {
  }

  method ParseWhereClause(tokens: seq<string>, pos: nat, result: ParseResult) returns (next: nat, updated: ParseResult)
    requires result.success && result.error == "" && result.tokens == []
    ensures Outcome(updated, result.kind, WhereError(tokens, pos), result.attributes + WhereAttributes(tokens, pos))
    ensures next == if !IsKeywordAt(tokens, pos, "WHERE") then pos else if pos + 4 <= |tokens| then pos + 4 else |tokens|
  {
    hide ToUpper;
    next, updated := pos, result;
    if pos >= |tokens| {
      return;
    }
    var upper := ToUpper(tokens[pos]);
    if upper != "WHERE" {
      return;
    }
    next := next + 1;
    if next >= |tokens| {
      return next, Failed(updated, "WHERE clause is incomplete");
    }
    var column := tokens[next];
    next := next + 1;
    updated := updated.(attributes := updated.attributes["where_column" := column]);
    if next >= |tokens| {
      return next, Failed(updated, "WHERE clause operator missing");
    }
    var op := tokens[next];
    next := next + 1;
    updated := updated.(attributes := updated.attributes["where_operator" := op]);
    if next >= |tokens| {
      return next, Failed(updated, "WHERE clause value missing");
    }
    var value := tokens[next];
    next := next + 1;
    PartsAdded(result.attributes, column, op, value);
    updated := updated.(attributes := updated.attributes["where_value" := value]);
  }

  method ParseTableName(tokens: seq<string>, pos: nat) returns (name: string, next: nat)
    ensures if pos < |tokens| then name == tokens[pos] && next == pos + 1 else name == "" && next == pos
  {
    if pos >= |tokens| {
      return "", pos;
    }
    name, next := tokens[pos], pos + 1;
  }

  method ParseSelect(tokens: seq<string>) returns (result: ParseResult)
    ensures Outcome(result, SELECT, SelectError(tokens), SelectAttributes(tokens))
  {
    result := Started(SELECT);
    var columns, next := ParseColumnList(tokens, 1);
    if columns == [] {
      return Failed(result, "SELECT statement must have at least one column");
    }
    var columnsText := JoinList(columns);
    result := result.(attributes := result.attributes["columns" := columnsText]);
    if next >= |tokens| {
      return Failed(result, "SELECT statement missing FROM clause");
    }
    var upper := ToUpper(tokens[next]);
    if upper != "FROM" {
      return Failed(result, "SELECT statement missing FROM keyword");
    }
    var table;
    table, next := ParseTableName(tokens, next + 1);
    if table == "" {
      return Failed(result, "SELECT statement missing table name");
    }
    result := result.(attributes := result.attributes["table" := table]);
    next, result := ParseWhereClause(tokens, next, result);
  }

  method ParseInsert(tokens: seq<string>) returns (result: ParseResult)
    ensures Outcome(result, INSERT, InsertError(tokens), InsertAttributes(tokens))
  {
    result := Started(INSERT);
    var next := 1;
    if next >= |tokens| {
      return Failed(result, "INSERT statement incomplete");
    }
    var upper := ToUpper(tokens[next]);
    if upper != "INTO" {
      return Failed(result, "INSERT statement missing INTO keyword");
    }
    var table;
    table, next := ParseTableName(tokens, next + 1);
    if table == "" {
      return Failed(result, "INSERT statement missing table name");
    }
    result := result.(attributes := result.attributes["table" := table]);
    if next < |tokens| && tokens[next] == "(" {
      var columns;
      columns, next := ParseColumnList(tokens, next);
      var columnsText := JoinList(columns);
      result := result.(attributes := result.attributes["columns" := columnsText]);
    }
    if next >= |tokens| {
      return Failed(result, "INSERT statement missing VALUES clause");
    }
    var values;
    values, next := ParseValueList(tokens, next);
    if values == [] {
      return Failed(result, "INSERT statement missing values");
    }
    var valuesText := JoinList(values);
    result := result.(attributes := result.attributes["values" := valuesText]);
  }

  method ParseUpdate(tokens: seq<string>) returns (result: ParseResult)
    ensures Outcome(result, UPDATE, UpdateError(tokens), UpdateAttributes(tokens))
  {
    result := Started(UPDATE);
    var table, next := ParseTableName(tokens, 1);
    if table == "" {
      return Failed(result, "UPDATE statement missing table name");
    }
    result := result.(attributes := result.attributes["table" := table]);
    if next >= |tokens| {
      return Failed(result, "UPDATE statement missing SET clause");
    }
    var upper := ToUpper(tokens[next]);
    if upper != "SET" {
      return Failed(result, "UPDATE statement missing SET keyword");
    }
    next := next + 1;
    if next >= |tokens| {
      return Failed(result, "UPDATE SET clause incomplete");
    }
    result := result.(attributes := result.attributes["set_column" := tokens[next]]);
    next := next + 1;
    if next >= |tokens| || tokens[next] != "=" {
      return Failed(result, "UPDATE SET clause missing = operator");
    }
    next := next + 1;
    if next >= |tokens| {
      return Failed(result, "UPDATE SET clause missing value");
    }
    result := result.(attributes := result.attributes["set_value" := tokens[next]]);
    next := next + 1;
    next, result := ParseWhereClause(tokens, next, result);
  }

  method ParseDelete(tokens: seq<string>) returns (result: ParseResult)
    ensures Outcome(result, DELETE, DeleteError(tokens), DeleteAttributes(tokens))
  {
    result := Started(DELETE);
    var next := 1;
    if next >= |tokens| {
      return Failed(result, "DELETE statement incomplete");
    }
    var upper := ToUpper(tokens[next]);
    if upper == "FROM" {
      next := next + 1;
    }
    var table;
    table, next := ParseTableName(tokens, next);
    if table == "" {
      return Failed(result, "DELETE statement missing table name");
    }
    result := result.(attributes := result.attributes["table" := table]);
    next, result := ParseWhereClause(tokens, next, result);
  }

  /** A bracket group behind a type word, if there is one. */
  method SkipGroup(tokens: seq<string>, pos: nat) returns (next: nat)
    requires pos <= |tokens|
    ensures next == GroupNext(tokens, pos)
  {
    next := pos;
    if next < |tokens| && tokens[next] == "(" {
      next := next + 1;
      while next < |tokens| && tokens[next] != ")"
        invariant pos + 1 <= next <= |tokens|
        invariant ListEnd(tokens, pos + 1, false) == ListEnd(tokens, next, false)
      {
        next := next + 1;
      }
      if next < |tokens| && tokens[next] == ")" {
        next := next + 1;
      }
    }
  }

  /** The column definitions of CREATE TABLE: types and their bracket groups are skipped. */
  method ParseColumnDefinitions(tokens: seq<string>, pos: nat) returns (columns: seq<string>)
    requires pos <= |tokens|
    ensures columns == ColumnNames(tokens, pos) && forall c :: c in columns ==> NoTypeWord(c)
  {
    hide NoTypeWord;
    NamesAreNoTypes(tokens, pos);
    columns := [];
    var next := pos;
    while next < |tokens| && tokens[next] != ")"
      invariant pos <= next <= |tokens|
      invariant columns + ColumnNames(tokens, next) == ColumnNames(tokens, pos)
      decreases |tokens| - next
    {
      var token := tokens[next];
      if token == "," {
        next := next + 1;
        continue;
      }
      var upper := ToUpper(token);
      if upper == "INT" || upper == "VARCHAR" || upper == "TEXT" || upper == "CHAR" || upper == "INTEGER" ||
         upper == "PRIMARY" || upper == "KEY" || upper == "NOT" || upper == "NULL" {
        next := SkipGroup(tokens, next + 1);
        continue;
      }
      Regroup(columns, [token], ColumnNames(tokens, next + 1));
      columns := columns + [token];
      next := next + 1;
    }
  }

  method ParseCreateTable(tokens: seq<string>) returns (result: ParseResult)
    ensures Outcome(result, CREATE_TABLE, CreateError(tokens), CreateAttributes(tokens))
  {
    result := Started(CREATE_TABLE);
    var next := 1;
    if next >= |tokens| {
      return Failed(result, "CREATE statement incomplete");
    }
    var upper := ToUpper(tokens[next]);
    if upper != "TABLE" {
      return Failed(result, "CREATE statement missing TABLE keyword");
    }
    var table;
    table, next := ParseTableName(tokens, next + 1);
    if table == "" {
      return Failed(result, "CREATE TABLE statement missing table name");
    }
    result := result.(attributes := result.attributes["table" := table]);
    if next >= |tokens| || tokens[next] != "(" {
      return Failed(result, "CREATE TABLE statement missing column definitions");
    }
    next := next + 1;
    var columns := ParseColumnDefinitions(tokens, next);
    if columns == [] {
      return Failed(result, "CREATE TABLE statement has no columns");
    }
    var columnsText := JoinList(columns);
    result := result.(attributes := result.attributes["columns" := columnsText]);
  }

  method ParseQuery(sql: string) returns (result: ParseResult)
    ensures result.tokens == Lex(sql, "", Outside)
    ensures result.kind == QueryType(result.tokens)
    ensures result.success == QueryOk(result.tokens) && result.error == QueryError(result.tokens)
    ensures result.attributes == QueryAttributes(result.tokens)
  {
    hide SelectOk, InsertOk, UpdateOk, DeleteOk, CreateOk, SelectError, InsertError, UpdateError, DeleteError, CreateError;
    hide SelectAttributes, InsertAttributes, UpdateAttributes, DeleteAttributes, CreateAttributes, ToUpper, Lex;
    result := ParseResult(UNKNOWN, map[], [], false, "");
    var tokens := Tokenize(sql);
    result := result.(tokens := tokens);
    if tokens == [] {
      return Failed(result, "Empty SQL statement");
    }
    var first := ToUpper(tokens[0]);
    if first == "SELECT" {
      result := ParseSelect(tokens);
    } else if first == "INSERT" {
      result := ParseInsert(tokens);
    } else if first == "UPDATE" {
      result := ParseUpdate(tokens);
    } else if first == "DELETE" {
      result := ParseDelete(tokens);
    } else if first == "CREATE" {
      if |tokens| > 1 && ToUpper(tokens[1]) == "TABLE" {
        result := ParseCreateTable(tokens);
      } else {
        result := Failed(result, "Unsupported CREATE statement type");
      }
    } else {
      result := Failed(result, "Unsupported SQL statement type: " + tokens[0]);
    }
    if result.tokens == [] {
      tokens := Tokenize(sql);
      result := result.(tokens := tokens);
    }
  }
}
