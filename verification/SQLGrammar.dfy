/** Which token lists the statement parsers accept, what they read from them, and the statements that print to them. */
module SQLGrammar {
  datatype StatementType = SELECT | INSERT | UPDATE | DELETE | CREATE_TABLE | UNKNOWN

  type Attributes = map<string, string>

  function UpperChar(c: char): char {
    if 'a' <= c <= 'z' then (c - 'a') + 'A' else c
  }

  function ToUpper(s: string): (u: string)
    ensures |u| == |s|
  {
    seq(|s|, i requires 0 <= i < |s| => UpperChar(s[i]))
  }

  /** Letters are raised, all other characters stay. */
  lemma UpperMeans(s: string, i: nat)
    requires i < |s|
    ensures ToUpper(s)[i] as int == if 97 <= s[i] as int <= 122 then s[i] as int - 32 else s[i] as int
  {
  }

  /** The words that end a column list, and their spelling. */
  datatype ClauseWord = From | Where | ValuesWord | SetWord
  {
    function Spelling(): string {
      match this
      case From => "FROM"
      case Where => "WHERE"
      case ValuesWord => "VALUES"
      case SetWord => "SET"
    }
  }

  /** The words a column definition is stripped of, and their spelling. */
  datatype TypeWord = Int | Varchar | Text | Char | Integer | Primary | Key | Not | Null
  {
    function Spelling(): string {
      match this
      case Int => "INT"
      case Varchar => "VARCHAR"
      case Text => "TEXT"
      case Char => "CHAR"
      case Integer => "INTEGER"
      case Primary => "PRIMARY"
      case Key => "KEY"
      case Not => "NOT"
      case Null => "NULL"
    }
  }

  /** The token is none of the words, in whatever case. */
  ghost predicate NoClauseWord(t: string) {
    forall w: ClauseWord :: ToUpper(t) != w.Spelling()
  }

  ghost predicate NoTypeWord(t: string) {
    forall w: TypeWord :: ToUpper(t) != w.Spelling()
  }

  lemma ClauseWords(t: string)
    ensures ClauseKeyword(t) <==> !NoClauseWord(t)
  {
    var u := ToUpper(t);
    hide ToUpper;
    assert u == "FROM" ==> u == From.Spelling();
    assert u == "WHERE" ==> u == Where.Spelling();
    assert u == "VALUES" ==> u == ValuesWord.Spelling();
    assert u == "SET" ==> u == SetWord.Spelling();
  }

  lemma TypeWords(t: string)
    ensures TypeKeyword(t) <==> !NoTypeWord(t)
  {
    var u := ToUpper(t);
    hide ToUpper;
    assert u == "INT" ==> u == Int.Spelling();
    assert u == "VARCHAR" ==> u == Varchar.Spelling();
    assert u == "TEXT" ==> u == TypeWord.Text.Spelling();
    assert u == "CHAR" ==> u == Char.Spelling();
    assert u == "INTEGER" ==> u == Integer.Spelling();
    assert u == "PRIMARY" ==> u == Primary.Spelling();
    assert u == "KEY" ==> u == Key.Spelling();
    assert u == "NOT" ==> u == Not.Spelling();
    assert u == "NULL" ==> u == Null.Spelling();
  }

  /** Words that end a column list. */
  predicate ClauseKeyword(t: string) {
    ToUpper(t) in {"FROM", "WHERE", "VALUES", "SET"}
  }

  lemma CommaIsNoKeyword()
    ensures !ClauseKeyword(",")
  {
    assert ToUpper(",")[0] == ',';
  }

  /** Words a column definition is stripped of. */
  predicate TypeKeyword(t: string) {
    ToUpper(t) in {"INT", "VARCHAR", "TEXT", "CHAR", "INTEGER", "PRIMARY", "KEY", "NOT", "NULL"}
  }

  function JoinCommas(items: seq<string>): string {
    if items == [] then "" else if |items| == 1 then items[0]
    else JoinCommas(items[..|items| - 1]) + "," + items[|items| - 1]
  }

  function DropCommas(ts: seq<string>): seq<string> {
    if ts == [] then []
    else DropCommas(ts[..|ts| - 1]) + if ts[|ts| - 1] == "," then [] else [ts[|ts| - 1]]
  }

  /** Where a list ends: the first closing bracket or, in a column list, clause keyword. */
  function ListEnd(ts: seq<string>, from: nat, columns: bool): (k: nat)
    requires from <= |ts|
    ensures from <= k <= |ts|
    decreases |ts| - from
  {
    if from == |ts| || ts[from] == ")" || (columns && ClauseKeyword(ts[from])) then from
    else ListEnd(ts, from + 1, columns)
  }

  function ListItems(ts: seq<string>, from: nat, columns: bool): seq<string>
    requires from <= |ts|
  {
    DropCommas(ts[from..ListEnd(ts, from, columns)])
  }

  /** The position behind a list; a closing bracket belongs to it. */
  function ListNext(ts: seq<string>, from: nat, columns: bool): (k: nat)
    requires from <= |ts|
    ensures from <= k <= |ts|
  {
    var k := ListEnd(ts, from, columns);
    if k < |ts| && ts[k] == ")" then k + 1 else k
  }

  predicate IsAt(ts: seq<string>, k: nat, t: string) {
    k < |ts| && ts[k] == t
  }

  predicate IsKeywordAt(ts: seq<string>, k: nat, word: string) {
    k < |ts| && ToUpper(ts[k]) == word
  }

  function SkipBracket(ts: seq<string>, k: nat): nat {
    if IsAt(ts, k, "(") then k + 1 else k
  }

  /** The columns of a column list that starts at `k`. */
  function Columns(ts: seq<string>, k: nat): seq<string> {
    if k >= |ts| then [] else if ts[k] == "*" then ["*"] else ListItems(ts, SkipBracket(ts, k), true)
  }

  function ColumnsNext(ts: seq<string>, k: nat): nat {
    if k >= |ts| then k else if ts[k] == "*" then k + 1 else ListNext(ts, SkipBracket(ts, k), true)
  }

  function ValuesFrom(ts: seq<string>, k: nat): (j: nat)
    requires k < |ts|
    ensures j <= |ts|
  {
    SkipBracket(ts, if IsKeywordAt(ts, k, "VALUES") then k + 1 else k)
  }

  function Values(ts: seq<string>, k: nat): seq<string> {
    if k >= |ts| then [] else ListItems(ts, ValuesFrom(ts, k), false)
  }

  /** A WHERE clause is absent or has its three parts; what follows it is not looked at. */
  predicate WhereOk(ts: seq<string>, k: nat) {
    IsKeywordAt(ts, k, "WHERE") ==> k + 3 < |ts|
  }

  function WhereError(ts: seq<string>, k: nat): (e: string)
    ensures e == "" <==> WhereOk(ts, k)
  {
    if !IsKeywordAt(ts, k, "WHERE") then ""
    else if k + 1 >= |ts| then "WHERE clause is incomplete"
    else if k + 2 >= |ts| then "WHERE clause operator missing"
    else if k + 3 >= |ts| then "WHERE clause value missing"
    else ""
  }

  /** The parts that are there; with the clause complete, all three. */
  function WhereAttributes(ts: seq<string>, k: nat): Attributes {
    if !IsKeywordAt(ts, k, "WHERE") || k + 1 >= |ts| then map[]
    else if k + 2 >= |ts| then map["where_column" := ts[k + 1]]
    else if k + 3 >= |ts| then map["where_column" := ts[k + 1], "where_operator" := ts[k + 2]]
    else map["where_column" := ts[k + 1], "where_operator" := ts[k + 2], "where_value" := ts[k + 3]]
  }

  predicate NameAt(ts: seq<string>, k: nat) {
    k < |ts| && ts[k] != ""
  }

  predicate SelectOk(ts: seq<string>) {
    var k := ColumnsNext(ts, 1);
    Columns(ts, 1) != [] && IsKeywordAt(ts, k, "FROM") && NameAt(ts, k + 1) && WhereOk(ts, k + 2)
  }

  function SelectError(ts: seq<string>): (e: string)
    ensures e == "" <==> SelectOk(ts)
  {
    var k := ColumnsNext(ts, 1);
    if Columns(ts, 1) == [] then "SELECT statement must have at least one column"
    else if k >= |ts| then "SELECT statement missing FROM clause"
    else if !IsKeywordAt(ts, k, "FROM") then "SELECT statement missing FROM keyword"
    else if !NameAt(ts, k + 1) then "SELECT statement missing table name"
    else WhereError(ts, k + 2)
  }

  /** What is read, up to the first error if there is one. */
  function SelectAttributes(ts: seq<string>): Attributes {
    var k := ColumnsNext(ts, 1);
    var columns := map["columns" := JoinCommas(Columns(ts, 1))];
    if Columns(ts, 1) == [] then map[]
    else if !IsKeywordAt(ts, k, "FROM") || !NameAt(ts, k + 1) then columns
    else columns["table" := ts[k + 1]] + WhereAttributes(ts, k + 2)
  }

  function InsertNext(ts: seq<string>): nat {
    if IsAt(ts, 3, "(") then ColumnsNext(ts, 3) else 3
  }

  predicate InsertOk(ts: seq<string>) {
    IsKeywordAt(ts, 1, "INTO") && NameAt(ts, 2) && Values(ts, InsertNext(ts)) != []
  }

  function InsertError(ts: seq<string>): (e: string)
    ensures e == "" <==> InsertOk(ts)
  {
    if |ts| <= 1 then "INSERT statement incomplete"
    else if !IsKeywordAt(ts, 1, "INTO") then "INSERT statement missing INTO keyword"
    else if !NameAt(ts, 2) then "INSERT statement missing table name"
    else if InsertNext(ts) >= |ts| then "INSERT statement missing VALUES clause"
    else if Values(ts, InsertNext(ts)) == [] then "INSERT statement missing values"
    else ""
  }

  function InsertAttributes(ts: seq<string>): Attributes {
    if !IsKeywordAt(ts, 1, "INTO") || !NameAt(ts, 2) then map[]
    else
      var names: Attributes :=
        if IsAt(ts, 3, "(") then map["table" := ts[2], "columns" := JoinCommas(Columns(ts, 3))] else map["table" := ts[2]];
      if InsertOk(ts) then names["values" := JoinCommas(Values(ts, InsertNext(ts)))] else names
  }

  predicate UpdateOk(ts: seq<string>) {
    NameAt(ts, 1) && IsKeywordAt(ts, 2, "SET") && IsAt(ts, 4, "=") && |ts| > 5 && WhereOk(ts, 6)
  }

  function UpdateError(ts: seq<string>): (e: string)
    ensures e == "" <==> UpdateOk(ts)
  {
    if !NameAt(ts, 1) then "UPDATE statement missing table name"
    else if |ts| <= 2 then "UPDATE statement missing SET clause"
    else if !IsKeywordAt(ts, 2, "SET") then "UPDATE statement missing SET keyword"
    else if |ts| <= 3 then "UPDATE SET clause incomplete"
    else if !IsAt(ts, 4, "=") then "UPDATE SET clause missing = operator"
    else if |ts| <= 5 then "UPDATE SET clause missing value"
    else WhereError(ts, 6)
  }

  function UpdateAttributes(ts: seq<string>): Attributes {
    if !NameAt(ts, 1) then map[]
    else if !IsKeywordAt(ts, 2, "SET") || |ts| <= 3 then map["table" := ts[1]]
    else if !IsAt(ts, 4, "=") || |ts| <= 5 then map["table" := ts[1], "set_column" := ts[3]]
    else map["table" := ts[1], "set_column" := ts[3], "set_value" := ts[5]] + WhereAttributes(ts, 6)
  }

  function DeleteName(ts: seq<string>): nat {
    if IsKeywordAt(ts, 1, "FROM") then 2 else 1
  }

  predicate DeleteOk(ts: seq<string>) {
    NameAt(ts, DeleteName(ts)) && WhereOk(ts, DeleteName(ts) + 1)
  }

  function DeleteError(ts: seq<string>): (e: string)
    ensures e == "" <==> DeleteOk(ts)
  {
    if |ts| <= 1 then "DELETE statement incomplete"
    else if !NameAt(ts, DeleteName(ts)) then "DELETE statement missing table name"
    else WhereError(ts, DeleteName(ts) + 1)
  }

  function DeleteAttributes(ts: seq<string>): Attributes {
    if !NameAt(ts, DeleteName(ts)) then map[]
    else map["table" := ts[DeleteName(ts)]] + WhereAttributes(ts, DeleteName(ts) + 1)
  }

  /** The position behind a bracket group that may start at `k`. */
  function GroupNext(ts: seq<string>, k: nat): (j: nat)
    requires k <= |ts|
    ensures k <= j <= |ts|
  {
    if IsAt(ts, k, "(") then ListNext(ts, k + 1, false) else k
  }

  /** The names in a list of column definitions from `k` on. */
  function ColumnNames(ts: seq<string>, k: nat): seq<string>
    requires k <= |ts|
    decreases |ts| - k
  {
    if k == |ts| || ts[k] == ")" then []
    else if ts[k] == "," then ColumnNames(ts, k + 1)
    else if TypeKeyword(ts[k]) then ColumnNames(ts, GroupNext(ts, k + 1))
    else [ts[k]] + ColumnNames(ts, k + 1)
  }

  /** No reported column is a type word. */
  lemma {:induction false} NamesAreNoTypes(ts: seq<string>, k: nat)
    requires k <= |ts|
    ensures forall name :: name in ColumnNames(ts, k) ==> NoTypeWord(name)
    decreases |ts| - k
  {
    hide ToUpper, NoTypeWord, TypeKeyword;
    if k < |ts| {
      TypeWords(ts[k]);
      NamesAreNoTypes(ts, k + 1);
      NamesAreNoTypes(ts, GroupNext(ts, k + 1));
    }
  }

  /** Any other token in the place of a name is reported. */
  lemma NameKept(ts: seq<string>, k: nat)
    requires k < |ts| && ts[k] != ")" && ts[k] != "," && NoTypeWord(ts[k])
    ensures ColumnNames(ts, k) == [ts[k]] + ColumnNames(ts, k + 1)
  {
    hide ToUpper, NoTypeWord, TypeKeyword;
    TypeWords(ts[k]);
  }

  lemma {:induction false} DropCommasMembers(ts: seq<string>)
    ensures forall t :: t in DropCommas(ts) ==> t in ts
    decreases |ts|
  {
    if ts != [] {
      DropCommasMembers(ts[..|ts| - 1]);
    }
  }

  lemma {:induction false} BeforeListEnd(ts: seq<string>, from: nat, i: nat)
    requires from <= |ts| && from <= i < ListEnd(ts, from, true)
    ensures !ClauseKeyword(ts[i]) && ts[i] != ")"
    decreases i - from
  {
    if from < i {
      BeforeListEnd(ts, from + 1, i);
    }
  }

  /** No column of a list is a word that ends one. */
  lemma ColumnsAreNoClauses(ts: seq<string>, from: nat)
    requires from <= |ts|
    ensures forall t :: t in ListItems(ts, from, true) ==> NoClauseWord(t)
  {
    hide ToUpper, NoClauseWord, ClauseKeyword, DropCommas;
    var body := ts[from..ListEnd(ts, from, true)];
    DropCommasMembers(body);
    forall t | t in ListItems(ts, from, true) ensures NoClauseWord(t) {
      var i :| 0 <= i < |body| && body[i] == t;
      BeforeListEnd(ts, from, from + i);
      ClauseWords(t);
    }
  }

  predicate CreateOk(ts: seq<string>) {
    IsKeywordAt(ts, 1, "TABLE") && NameAt(ts, 2) && IsAt(ts, 3, "(") && ColumnNames(ts, 4) != []
  }

  function CreateError(ts: seq<string>): (e: string)
    ensures e == "" <==> CreateOk(ts)
  {
    if |ts| <= 1 then "CREATE statement incomplete"
    else if !IsKeywordAt(ts, 1, "TABLE") then "CREATE statement missing TABLE keyword"
    else if !NameAt(ts, 2) then "CREATE TABLE statement missing table name"
    else if !IsAt(ts, 3, "(") then "CREATE TABLE statement missing column definitions"
    else if ColumnNames(ts, 4) == [] then "CREATE TABLE statement has no columns"
    else ""
  }

  function CreateAttributes(ts: seq<string>): Attributes {
    if !IsKeywordAt(ts, 1, "TABLE") || !NameAt(ts, 2) then map[]
    else if CreateOk(ts) then map["table" := ts[2], "columns" := JoinCommas(ColumnNames(ts, 4))]
    else map["table" := ts[2]]
  }

  function QueryType(ts: seq<string>): StatementType {
    if IsKeywordAt(ts, 0, "SELECT") then SELECT
    else if IsKeywordAt(ts, 0, "INSERT") then INSERT
    else if IsKeywordAt(ts, 0, "UPDATE") then UPDATE
    else if IsKeywordAt(ts, 0, "DELETE") then DELETE
    else if IsKeywordAt(ts, 0, "CREATE") && IsKeywordAt(ts, 1, "TABLE") then CREATE_TABLE
    else UNKNOWN
  }

  predicate QueryOk(ts: seq<string>) {
    match QueryType(ts)
    case SELECT => SelectOk(ts)
    case INSERT => InsertOk(ts)
    case UPDATE => UpdateOk(ts)
    case DELETE => DeleteOk(ts)
    case CREATE_TABLE => CreateOk(ts)
    case UNKNOWN => false
  }

  function QueryError(ts: seq<string>): (e: string)
    ensures e == "" <==> QueryOk(ts)
  {
    match QueryType(ts)
    case SELECT => SelectError(ts)
    case INSERT => InsertError(ts)
    case UPDATE => UpdateError(ts)
    case DELETE => DeleteError(ts)
    case CREATE_TABLE => CreateError(ts)
    case UNKNOWN =>
      if ts == [] then "Empty SQL statement"
      else if IsKeywordAt(ts, 0, "CREATE") then "Unsupported CREATE statement type"
      else "Unsupported SQL statement type: " + ts[0]
  }

  function QueryAttributes(ts: seq<string>): Attributes {
    match QueryType(ts)
    case SELECT => SelectAttributes(ts)
    case INSERT => InsertAttributes(ts)
    case UPDATE => UpdateAttributes(ts)
    case DELETE => DeleteAttributes(ts)
    case CREATE_TABLE => CreateAttributes(ts)
    case UNKNOWN => map[]
  }

  // ---- what malformed statements are told ----

  /** The statement is refused with this message, and this is what had been read of it. */
  predicate Refused(ts: seq<string>, message: string, read: Attributes) {
    !QueryOk(ts) && QueryError(ts) == message && QueryAttributes(ts) == read
  }

  lemma SelectRefused(select: string, from: string, t: string, rest: seq<string>)
    requires ToUpper(select) == "SELECT" && ToUpper(from) == "FROM" && ToUpper(t) != "FROM"
    ensures Refused([select], "SELECT statement must have at least one column", map[])
    ensures Refused([select, from] + rest, "SELECT statement must have at least one column", map[])
    ensures Refused([select, "*"], "SELECT statement missing FROM clause", map["columns" := "*"])
    ensures Refused([select, "*", t] + rest, "SELECT statement missing FROM keyword", map["columns" := "*"])
    ensures Refused([select, "*", from], "SELECT statement missing table name", map["columns" := "*"])
  {
    hide ToUpper;
  }

  lemma InsertRefused(insert: string, into: string, t: string, rest: seq<string>)
    requires ToUpper(insert) == "INSERT" && ToUpper(into) == "INTO" && ToUpper(t) != "INTO"
    ensures Refused([insert], "INSERT statement incomplete", map[])
    ensures Refused([insert, t] + rest, "INSERT statement missing INTO keyword", map[])
    ensures Refused([insert, into], "INSERT statement missing table name", map[])
  {
    hide ToUpper;
  }

  lemma InsertValuesRefused(insert: string, into: string, table: string, values: string, rest: seq<string>)
    requires ToUpper(insert) == "INSERT" && ToUpper(into) == "INTO" && ToUpper(values) == "VALUES" && table != ""
    ensures Refused([insert, into, table], "INSERT statement missing VALUES clause", map["table" := table])
    ensures Refused([insert, into, table, values], "INSERT statement missing values", map["table" := table])
    ensures Refused([insert, into, table, values, "(", ")"] + rest, "INSERT statement missing values", map["table" := table])
  {
    hide ToUpper;
  }

  lemma UpdateRefused(update: string, setWord: string, t: string, table: string, rest: seq<string>)
    requires ToUpper(update) == "UPDATE" && ToUpper(setWord) == "SET" && ToUpper(t) != "SET" && table != ""
    ensures Refused([update], "UPDATE statement missing table name", map[])
    ensures Refused([update, table], "UPDATE statement missing SET clause", map["table" := table])
    ensures Refused([update, table, t] + rest, "UPDATE statement missing SET keyword", map["table" := table])
    ensures Refused([update, table, setWord], "UPDATE SET clause incomplete", map["table" := table])
  {
    hide ToUpper;
  }

  lemma UpdateSetRefused(update: string, setWord: string, t: string, table: string, column: string, rest: seq<string>)
    requires ToUpper(update) == "UPDATE" && ToUpper(setWord) == "SET" && t != "=" && table != ""
    ensures var read := map["table" := table, "set_column" := column];
            && Refused([update, table, setWord, column], "UPDATE SET clause missing = operator", read)
            && Refused([update, table, setWord, column, t] + rest, "UPDATE SET clause missing = operator", read)
            && Refused([update, table, setWord, column, "="], "UPDATE SET clause missing value", read)
  {
    hide ToUpper;
  }

  lemma DeleteRefused(delete: string, from: string)
    requires ToUpper(delete) == "DELETE" && ToUpper(from) == "FROM"
    ensures Refused([delete], "DELETE statement incomplete", map[])
    ensures Refused([delete, from], "DELETE statement missing table name", map[])
  {
    hide ToUpper;
  }

  lemma CreateRefused(ts: seq<string>)
    requires ts != [] && ToUpper(ts[0]) == "CREATE" && (|ts| > 1 ==> ToUpper(ts[1]) != "TABLE")
    ensures Refused(ts, "Unsupported CREATE statement type", map[])
  {
    hide ToUpper, CreateOk, CreateError, CreateAttributes;
    hide SelectOk, InsertOk, UpdateOk, DeleteOk, SelectError, InsertError, UpdateError, DeleteError;
    hide SelectAttributes, InsertAttributes, UpdateAttributes, DeleteAttributes;
  }

  lemma CreateDispatched(ts: seq<string>)
    requires |ts| > 1 && ToUpper(ts[0]) == "CREATE" && ToUpper(ts[1]) == "TABLE"
    ensures QueryOk(ts) == CreateOk(ts) && QueryError(ts) == CreateError(ts) && QueryAttributes(ts) == CreateAttributes(ts)
  {
    hide ToUpper, CreateOk, CreateError, CreateAttributes;
    hide SelectOk, InsertOk, UpdateOk, DeleteOk, SelectError, InsertError, UpdateError, DeleteError;
    hide SelectAttributes, InsertAttributes, UpdateAttributes, DeleteAttributes;
  }

  lemma CreateTableRefused(ts: seq<string>)
    requires |ts| > 1 && ToUpper(ts[0]) == "CREATE" && ToUpper(ts[1]) == "TABLE"
    ensures |ts| == 2 || ts[2] == "" ==> Refused(ts, "CREATE TABLE statement missing table name", map[])
    ensures |ts| > 2 && ts[2] != "" && (|ts| == 3 || ts[3] != "(") ==>
              Refused(ts, "CREATE TABLE statement missing column definitions", map["table" := ts[2]])
    ensures |ts| > 3 && ts[2] != "" && ts[3] == "(" && (|ts| == 4 || ts[4] == ")") ==>
              Refused(ts, "CREATE TABLE statement has no columns", map["table" := ts[2]])
  {
    hide ToUpper, QueryOk, QueryError, QueryAttributes;
    CreateDispatched(ts);
  }

  /** Seen only by a caller that has not looked for TABLE itself. */
  lemma CreateCutShort(ts: seq<string>)
    requires |ts| > 1 ==> ToUpper(ts[1]) != "TABLE"
    ensures CreateError(ts) == if |ts| <= 1 then "CREATE statement incomplete" else "CREATE statement missing TABLE keyword"
  {
    hide ToUpper, ColumnNames;
  }

  lemma OtherRefused(word: string, rest: seq<string>)
    requires ToUpper(word) !in {"SELECT", "INSERT", "UPDATE", "DELETE", "CREATE"}
    ensures Refused([], "Empty SQL statement", map[])
    ensures Refused([word] + rest, "Unsupported SQL statement type: " + word, map[])
  {
    hide ToUpper;
  }

  /** Statements cut off inside their WHERE clause. */
  lemma WhereRefused(ts: seq<string>, where: string, column: string, op: string, k: nat, read: Attributes)
    requires ToUpper(where) == "WHERE" && k == |ts|
    ensures var us := ts + [where]; WhereError(us, k) == "WHERE clause is incomplete" && WhereAttributes(us, k) == map[]
    ensures var us := ts + [where, column];
            WhereError(us, k) == "WHERE clause operator missing" && WhereAttributes(us, k) == map["where_column" := column]
    ensures var us := ts + [where, column, op];
            && WhereError(us, k) == "WHERE clause value missing"
            && WhereAttributes(us, k) == map["where_column" := column, "where_operator" := op]
  {
    hide ToUpper;
  }

  /** Three complete statements followed by more words: what is wrong with them is what is wrong with their WHERE clause. */
  lemma SelectWhere(select: string, from: string, table: string, rest: seq<string>)
    requires ToUpper(select) == "SELECT" && ToUpper(from) == "FROM" && table != ""
    ensures var ts := [select, "*", from, table] + rest;
            && QueryError(ts) == WhereError(ts, 4)
            && QueryAttributes(ts) == map["columns" := "*", "table" := table] + WhereAttributes(ts, 4)
  {
    hide ToUpper, WhereError, WhereAttributes;
  }

  lemma UpdateWhere(update: string, setWord: string, table: string, column: string, value: string, rest: seq<string>)
    requires ToUpper(update) == "UPDATE" && ToUpper(setWord) == "SET" && table != ""
    ensures var ts := [update, table, setWord, column, "=", value] + rest;
            && QueryError(ts) == WhereError(ts, 6)
            && QueryAttributes(ts) == map["table" := table, "set_column" := column, "set_value" := value] + WhereAttributes(ts, 6)
  {
    hide ToUpper, WhereError, WhereAttributes;
  }

  lemma DeleteWhere(delete: string, from: string, table: string, rest: seq<string>)
    requires ToUpper(delete) == "DELETE" && ToUpper(from) == "FROM" && table != ""
    ensures var ts := [delete, from, table] + rest;
            QueryError(ts) == WhereError(ts, 3) && QueryAttributes(ts) == map["table" := table] + WhereAttributes(ts, 3)
  {
    hide ToUpper, WhereError, WhereAttributes;
  }
}
