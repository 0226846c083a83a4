/** Statements as trees, how they print, and that parsing the printed text recovers them. */
module SQLStatements {
  import opened Tokens
  import opened Wrappers
  import opened SQLGrammar
  import opened SQLParsing

  datatype Condition = Condition(column: string, op: string, value: string)

  /** A type word in some spelling, possibly with a bracket group as in VARCHAR(10). */
  datatype TypePart = TypePart(word: TypeWord, written: string, arguments: Option<seq<string>>)

  datatype ColumnDef = ColumnDef(name: string, parts: seq<TypePart>)

  datatype Statement =
    | Select(columns: seq<string>, table: string, where: Option<Condition>)
    | Insert(table: string, names: Option<seq<string>>, values: seq<string>)
    | Update(table: string, column: string, value: string, where: Option<Condition>)
    | Delete(table: string, where: Option<Condition>)
    | CreateTable(table: string, definitions: seq<ColumnDef>)

  /** The spelling of each keyword, in any mixture of cases, and which optional ones are written. */
  datatype Keywords = Keywords(selectWord: string, fromWord: string, whereWord: string, insertWord: string,
                               intoWord: string, valuesWord: string, updateWord: string, setWord: string,
                               deleteWord: string, createWord: string, tableWord: string,
                               withFrom: bool, withValues: bool, withBrackets: bool)
  {
    predicate Spelled() {
      && ToUpper(selectWord) == "SELECT"
      && ToUpper(fromWord) == "FROM"
      && ToUpper(whereWord) == "WHERE"
      && ToUpper(insertWord) == "INSERT"
      && ToUpper(intoWord) == "INTO"
      && ToUpper(valuesWord) == "VALUES"
      && ToUpper(updateWord) == "UPDATE"
      && ToUpper(setWord) == "SET"
      && ToUpper(deleteWord) == "DELETE"
      && ToUpper(createWord) == "CREATE"
      && ToUpper(tableWord) == "TABLE"
    }
  }

  function Separated(items: seq<string>): seq<string> {
    if |items| <= 1 then items else [items[0], ","] + Separated(items[1..])
  }

  function PrintWhere(where: Option<Condition>, kw: Keywords): seq<string> {
    match where
    case None => []
    case Some(c) => [kw.whereWord, c.column, c.op, c.value]
  }

  function PrintPart(part: TypePart): seq<string> {
    match part.arguments
    case None => [part.written]
    case Some(args) => [part.written, "("] + args + [")"]
  }

  function PrintParts(parts: seq<TypePart>): seq<string> {
    if parts == [] then [] else PrintPart(parts[0]) + PrintParts(parts[1..])
  }

  function PrintDefinitions(defs: seq<ColumnDef>): seq<string> {
    if defs == [] then []
    else [defs[0].name] + PrintParts(defs[0].parts) + (if |defs| == 1 then [] else [","] + PrintDefinitions(defs[1..]))
  }

  function PrintValues(values: seq<string>, kw: Keywords): seq<string> {
    (if kw.withValues then [kw.valuesWord] else []) +
    (if kw.withBrackets then ["("] + Separated(values) + [")"] else Separated(values))
  }

  function Print(s: Statement, kw: Keywords): seq<string> {
    match s
    case Select(columns, table, where) => [kw.selectWord] + Separated(columns) + ([kw.fromWord, table] + PrintWhere(where, kw))
    case Insert(table, None, values) => [kw.insertWord, kw.intoWord, table] + PrintValues(values, kw)
    case Insert(table, Some(names), values) =>
      [kw.insertWord, kw.intoWord, table, "("] + Separated(names) + ([")"] + PrintValues(values, kw))
    case Update(table, column, value, where) => [kw.updateWord, table, kw.setWord, column, "=", value] + PrintWhere(where, kw)
    case Delete(table, where) =>
      (if kw.withFrom then [kw.deleteWord, kw.fromWord, table] else [kw.deleteWord, table]) + PrintWhere(where, kw)
    case CreateTable(table, defs) => [kw.createWord, kw.tableWord, table, "("] + (PrintDefinitions(defs) + [")"])
  }

  predicate Item(t: string) {
    IsToken(t) && t != ")" && t != ","
  }

  predicate Items(ts: seq<string>) {
    forall i :: 0 <= i < |ts| ==> Item(ts[i])
  }

  ghost predicate ColumnItems(ts: seq<string>) {
    forall i :: 0 <= i < |ts| ==> Item(ts[i]) && NoClauseWord(ts[i])
  }

  predicate AdmissibleWhere(where: Option<Condition>) {
    where.Some? ==> IsToken(where.value.column) && IsToken(where.value.op) && IsToken(where.value.value)
  }

  predicate AdmissiblePart(part: TypePart) {
    && ToUpper(part.written) == part.word.Spelling()
    && (part.arguments.Some? ==>
          forall j :: 0 <= j < |part.arguments.value| ==>
            IsToken(part.arguments.value[j]) && part.arguments.value[j] != ")")
  }

  predicate AdmissibleParts(parts: seq<TypePart>) {
    forall i :: 0 <= i < |parts| ==> AdmissiblePart(parts[i])
  }

  ghost predicate AdmissibleDefinitions(defs: seq<ColumnDef>) {
    forall i :: 0 <= i < |defs| ==> Item(defs[i].name) && NoTypeWord(defs[i].name) && AdmissibleParts(defs[i].parts)
  }

  /** Names and values that the grammar can tell apart from its own brackets, commas and list-ending words. */
  ghost predicate Admissible(s: Statement) {
    match s
    case Select(columns, table, where) =>
      && columns != [] && IsToken(table) && AdmissibleWhere(where)
      && (columns == ["*"] || (ColumnItems(columns) && columns[0] != "*" && columns[0] != "("))
    case Insert(table, names, values) =>
      IsToken(table) && values != [] && Items(values) && (names.Some? ==> ColumnItems(names.value))
    case Update(table, column, value, where) =>
      IsToken(table) && IsToken(column) && IsToken(value) && AdmissibleWhere(where)
    case Delete(table, where) => IsToken(table) && AdmissibleWhere(where)
    case CreateTable(table, defs) => IsToken(table) && defs != [] && AdmissibleDefinitions(defs)
  }

  /**
   * Where optional parts are left out, what follows must not look like them: values of a plain INSERT without VALUES
   * have no brackets either, because brackets there would hold column names.
   */
  predicate Suits(s: Statement, kw: Keywords) {
    match s
    case Insert(_, names, values) =>
      && (names.None? && !kw.withValues ==> !kw.withBrackets)
      && (!kw.withBrackets && values != [] ==> values[0] != "(")
      && (!kw.withBrackets && !kw.withValues && values != [] ==> ToUpper(values[0]) != "VALUES")
    case Delete(table, _) => !kw.withFrom ==> ToUpper(table) != "FROM"
    case _ => true
  }

  function TypeOf(s: Statement): StatementType {
    match s
    case Select(_, _, _) => SELECT
    case Insert(_, _, _) => INSERT
    case Update(_, _, _, _) => UPDATE
    case Delete(_, _) => DELETE
    case CreateTable(_, _) => CREATE_TABLE
  }

  function WhereMeaning(where: Option<Condition>): Attributes {
    match where
    case None => map[]
    case Some(c) => map["where_column" := c.column, "where_operator" := c.op, "where_value" := c.value]
  }

  function Names(defs: seq<ColumnDef>): seq<string> {
    if defs == [] then [] else [defs[0].name] + Names(defs[1..])
  }

  /** What a parse should report about a statement. */
  function Meaning(s: Statement): Attributes {
    match s
    case Select(columns, table, where) => map["columns" := JoinCommas(columns), "table" := table] + WhereMeaning(where)
    case Insert(table, None, values) => map["table" := table, "values" := JoinCommas(values)]
    case Insert(table, Some(names), values) =>
      map["table" := table, "columns" := JoinCommas(names), "values" := JoinCommas(values)]
    case Update(table, column, value, where) =>
      map["table" := table, "set_column" := column, "set_value" := value] + WhereMeaning(where)
    case Delete(table, where) => map["table" := table] + WhereMeaning(where)
    case CreateTable(table, defs) => map["table" := table, "columns" := JoinCommas(Names(defs))]
  }

  // ---- lists ----

  lemma {:induction false} DropCommasAppend(a: seq<string>, b: seq<string>)
    ensures DropCommas(a + b) == DropCommas(a) + DropCommas(b)
    decreases |b|
  {
    if b == [] {
      assert a + b == a;
    } else {
      assert (a + b)[..|a + b| - 1] == a + b[..|b| - 1];
      DropCommasAppend(a, b[..|b| - 1]);
    }
  }

  lemma DropOne(t: string)
    ensures DropCommas([t]) == if t == "," then [] else [t]
  {
    assert [t][..0] == [];
  }

  lemma DropPair(t: string)
    requires t != ","
    ensures DropCommas([t, ","]) == [t]
  {
    assert [t] + [","] == [t, ","];
    DropCommasAppend([t], [","]);
    DropOne(t);
    DropOne(",");
  }

  lemma {:induction false} DropSeparators(items: seq<string>)
    requires "," !in items
    ensures DropCommas(Separated(items)) == items
    decreases |items|
  {
    hide DropCommas;
    if |items| > 1 {
      DropSeparators(items[1..]);
      DropCommasAppend([items[0], ","], Separated(items[1..]));
      DropPair(items[0]);
      assert [items[0]] + items[1..] == items;
    } else if |items| == 1 {
      DropOne(items[0]);
      assert items == [items[0]];
    } else {
      DropNone();
    }
  }

  lemma DropNone()
    ensures DropCommas([]) == []
  {
  }

  /** The tokens of a list are its items and commas. */
  lemma {:induction false} SeparatedTokens(items: seq<string>, i: nat)
    requires i < |Separated(items)|
    ensures Separated(items)[i] == "," || Separated(items)[i] in items
    decreases |items|
  {
    if |items| > 1 && i >= 2 {
      SeparatedTokens(items[1..], i - 2);
    }
  }

  lemma {:induction false} ListEndIs(ts: seq<string>, from: nat, to: nat, columns: bool)
    requires from <= to <= |ts|
    requires forall k :: from <= k < to ==> ts[k] != ")" && !(columns && ClauseKeyword(ts[k]))
    requires to == |ts| || ts[to] == ")" || (columns && ClauseKeyword(ts[to]))
    ensures ListEnd(ts, from, columns) == to
    decreases |ts| - from
  {
    if from < to {
      ListEndIs(ts, from + 1, to, columns);
    }
  }

  /** Nothing in a printed list ends it. */
  lemma ListUnended(items: seq<string>, i: nat, columns: bool)
    requires i < |Separated(items)| && Items(items) && (columns ==> ColumnItems(items))
    ensures Separated(items)[i] != ")" && !(columns && ClauseKeyword(Separated(items)[i]))
  {
    CommaIsNoKeyword();
    hide ClauseKeyword, NoClauseWord, IsToken, Separated;
    SeparatedTokens(items, i);
    ClauseWords(Separated(items)[i]);
  }

  /** A printed list between its neighbours is read back. */
  lemma ListReadBack(before: seq<string>, items: seq<string>, after: seq<string>, columns: bool)
    requires Items(items) && (columns ==> ColumnItems(items))
    requires after != [] ==> after[0] == ")" || (columns && ClauseKeyword(after[0]))
    ensures var ts := before + Separated(items) + after;
            && ListItems(ts, |before|, columns) == items
            && ListNext(ts, |before|, columns) ==
               |before| + |Separated(items)| + (if after != [] && after[0] == ")" then 1 else 0)
  {
    hide ClauseKeyword, NoClauseWord, IsToken, Separated, DropCommas, ListEnd;
    var body := Separated(items);
    var ts := before + body + after;
    var to := |before| + |body|;
    forall k | |before| <= k < to ensures ts[k] != ")" && !(columns && ClauseKeyword(ts[k])) {
      ListUnended(items, k - |before|, columns);
      assert ts[k] == body[k - |before|];
    }
    assert after != [] ==> ts[to] == after[0];
    ListEndIs(ts, |before|, to, columns);
    assert ts[|before|..to] == body;
    assert "," !in items;
    DropSeparators(items);
  }

  // ---- column definitions ----

  lemma {:induction false} ListEndShift(before: seq<string>, ts: seq<string>, k: nat, columns: bool)
    requires k <= |ts|
    ensures ListEnd(before + ts, |before| + k, columns) == |before| + ListEnd(ts, k, columns)
    decreases |ts| - k
  {
    if k < |ts| {
      assert (before + ts)[|before| + k] == ts[k];
      ListEndShift(before, ts, k + 1, columns);
    }
  }

  lemma {:induction false} ColumnNamesShift(before: seq<string>, ts: seq<string>, k: nat)
    requires k <= |ts|
    ensures ColumnNames(before + ts, |before| + k) == ColumnNames(ts, k)
    decreases |ts| - k
  {
    if k < |ts| {
      var all := before + ts;
      assert all[|before| + k] == ts[k];
      ColumnNamesShift(before, ts, k + 1);
      if k + 1 < |ts| && ts[k + 1] == "(" {
        ListEndShift(before, ts, k + 2, false);
      }
      assert GroupNext(all, |before| + k + 1) == |before| + GroupNext(ts, k + 1);
      if TypeKeyword(ts[k]) {
        ColumnNamesShift(before, ts, GroupNext(ts, k + 1));
      }
    }
  }

  lemma NameRead(name: string, rest: seq<string>)
    requires Item(name) && NoTypeWord(name)
    ensures ColumnNames([name] + rest, 0) == [name] + ColumnNames(rest, 0)
  {
    NameKept([name] + rest, 0);
    ColumnNamesShift([name], rest, 0);
  }

  lemma CommaSkipped(rest: seq<string>)
    ensures ColumnNames([","] + rest, 0) == ColumnNames(rest, 0)
  {
    ColumnNamesShift([","], rest, 0);
  }

  /** A written type word is one to the parser, and neither bracket nor comma. */
  lemma WrittenTypeWord(part: TypePart)
    requires AdmissiblePart(part)
    ensures TypeKeyword(part.written) && IsToken(part.written)
    ensures part.written != ")" && part.written != "," && part.written != "("
  {
    TypeWords(part.written);
    assert ToUpper(part.written)[0] == UpperChar(part.written[0]);
    SpelledIsToken(part.written, part.word.Spelling());
  }

  lemma TypeWordSkipped(part: TypePart, rest: seq<string>)
    requires AdmissiblePart(part) && part.arguments.None? && rest != [] && rest[0] != "("
    ensures ColumnNames(PrintPart(part) + rest, 0) == ColumnNames(rest, 0)
  {
    WrittenTypeWord(part);
    hide TypeKeyword;
    ColumnNamesShift([part.written], rest, 0);
    assert !IsAt([part.written] + rest, 1, "(");
  }

  lemma TypeGroupSkipped(part: TypePart, rest: seq<string>)
    requires AdmissiblePart(part) && part.arguments.Some?
    ensures ColumnNames(PrintPart(part) + rest, 0) == ColumnNames(rest, 0)
  {
    WrittenTypeWord(part);
    hide TypeKeyword;
    var args, ts := part.arguments.value, PrintPart(part) + rest;
    var end := 2 + |args|;
    assert ts[0] == part.written && ts[1] == "(" && ts[end] == ")";
    forall k | 2 <= k < end ensures ts[k] != ")" {
      assert ts[k] == args[k - 2];
    }
    ListEndIs(ts, 2, end, false);
    assert GroupNext(ts, 1) == end + 1 == |PrintPart(part)|;
    ColumnNamesShift(PrintPart(part), rest, 0);
  }

  /** Type words and their bracket groups contribute no names. */
  lemma {:induction false} PartsSkipped(parts: seq<TypePart>, rest: seq<string>)
    requires AdmissibleParts(parts) && rest != [] && rest[0] != "("
    ensures ColumnNames(PrintParts(parts) + rest, 0) == ColumnNames(rest, 0)
    decreases |parts|
  {
    if parts == [] {
      assert PrintParts(parts) + rest == rest;
    } else {
      var more := PrintParts(parts[1..]) + rest;
      PartsSkipped(parts[1..], rest);
      assert PrintParts(parts) + rest == PrintPart(parts[0]) + more;
      if parts[0].arguments.Some? {
        TypeGroupSkipped(parts[0], more);
      } else {
        FirstOfParts(parts[1..], rest);
        TypeWordSkipped(parts[0], more);
      }
    }
  }

  lemma FirstOfParts(parts: seq<TypePart>, rest: seq<string>)
    requires AdmissibleParts(parts) && rest != [] && rest[0] != "("
    ensures var ts := PrintParts(parts) + rest; ts != [] && ts[0] != "("
  {
    if parts != [] {
      WrittenTypeWord(parts[0]);
      assert PrintParts(parts)[0] == parts[0].written;
    }
  }

  lemma Regrouped(name: string, parts: seq<string>, more: seq<string>, end: seq<string>)
    ensures [name] + parts + more + end == [name] + (parts + (more + end))
  {
  }

  lemma NoNames()
    ensures ColumnNames([")"], 0) == []
  {
  }

  lemma {:induction false} DefinitionsReadBack(defs: seq<ColumnDef>)
    requires AdmissibleDefinitions(defs)
    ensures ColumnNames(PrintDefinitions(defs) + [")"], 0) == Names(defs)
    decreases |defs|
  {
    hide NoTypeWord, IsToken, AdmissibleParts, ColumnNames;
    if defs == [] {
      NoNames();
      assert PrintDefinitions(defs) + [")"] == [")"];
    } else {
      var d := defs[0];
      var more := if |defs| == 1 then [] else [","] + PrintDefinitions(defs[1..]);
      var rest := more + [")"];
      Regrouped(d.name, PrintParts(d.parts), more, [")"]);
      NameRead(d.name, PrintParts(d.parts) + rest);
      PartsSkipped(d.parts, rest);
      if |defs| > 1 {
        DefinitionsReadBack(defs[1..]);
        CommaSkipped(PrintDefinitions(defs[1..]) + [")"]);
        assert rest == [","] + (PrintDefinitions(defs[1..]) + [")"]);
      } else {
        NoNames();
        assert rest == [")"] && defs[1..] == [];
      }
    }
  }

  // ---- statements ----

  lemma WhereReadBack(before: seq<string>, where: Option<Condition>, kw: Keywords)
    requires kw.Spelled()
    requires AdmissibleWhere(where)
    ensures var ts := before + PrintWhere(where, kw);
            WhereOk(ts, |before|) && WhereAttributes(ts, |before|) == WhereMeaning(where)
  {
    var ts := before + PrintWhere(where, kw);
    if where.Some? {
      var c := where.value;
      assert ts[|before|] == kw.whereWord && ts[|before| + 1] == c.column && ts[|before| + 2] == c.op && ts[|before| + 3] == c.value;
    }
  }

  /** The columns of a printed SELECT are read, and the cursor stops before FROM. */
  lemma SelectColumnsRead(first: string, columns: seq<string>, after: seq<string>)
    requires columns == ["*"] || (columns != [] && ColumnItems(columns) && columns[0] != "*" && columns[0] != "(")
    requires after != [] && ClauseKeyword(after[0])
    ensures var ts := [first] + Separated(columns) + after;
            Columns(ts, 1) == columns && ColumnsNext(ts, 1) == 1 + |Separated(columns)|
  {
    var ts := [first] + Separated(columns) + after;
    if columns == ["*"] {
      assert ts[1] == "*";
    } else {
      assert ts[1] == columns[0] && after[0] != ")";
      ListReadBack([first], columns, after, true);
    }
  }

  lemma SelectReadBack(columns: seq<string>, table: string, where: Option<Condition>, kw: Keywords)
    requires kw.Spelled()
    requires Admissible(Select(columns, table, where))
    ensures var ts := Print(Select(columns, table, where), kw);
            SelectOk(ts) && SelectAttributes(ts) == Meaning(Select(columns, table, where))
  {
    hide SelectOk, SelectAttributes, Meaning, WhereOk, WhereAttributes, JoinCommas, Columns, ColumnsNext, Separated, PrintWhere;
    var body, after := Separated(columns), [kw.fromWord, table] + PrintWhere(where, kw);
    var ts, k := [kw.selectWord] + body + after, 1 + |body|;
    SelectColumnsRead(kw.selectWord, columns, after);
    assert ts[k] == kw.fromWord && ts[k + 1] == table;
    var before := [kw.selectWord] + body + [kw.fromWord, table];
    assert ts == before + PrintWhere(where, kw);
    WhereReadBack(before, where, kw);
    SelectAssembled(ts, k, columns, table, where);
  }

  lemma SelectAssembled(ts: seq<string>, k: nat, columns: seq<string>, table: string, where: Option<Condition>)
    requires Columns(ts, 1) == columns != [] && ColumnsNext(ts, 1) == k
    requires k + 1 < |ts| && ToUpper(ts[k]) == "FROM" && ts[k + 1] == table != ""
    requires WhereOk(ts, k + 2) && WhereAttributes(ts, k + 2) == WhereMeaning(where)
    ensures SelectOk(ts) && SelectAttributes(ts) == Meaning(Select(columns, table, where))
  {
    hide ToUpper, Columns, ColumnsNext, WhereOk, WhereAttributes, WhereMeaning, JoinCommas;
  }

  lemma PlainInsertReadBack(table: string, values: seq<string>, kw: Keywords)
    requires kw.Spelled()
    requires Admissible(Insert(table, None, values)) && Suits(Insert(table, None, values), kw)
    ensures var ts := Print(Insert(table, None, values), kw);
            InsertOk(ts) && InsertAttributes(ts) == Meaning(Insert(table, None, values))
  {
    hide InsertOk, InsertAttributes, Meaning, Values, JoinCommas, Separated, ToUpper, ClauseKeyword;
    var head := [kw.insertWord, kw.intoWord, table];
    var ts := Print(Insert(table, None, values), kw);
    ValuesRead(ts, head, values, kw);
    FirstOfValues(values, kw);
    assert ts[1] == kw.intoWord && ts[2] == table && ts[3] == PrintValues(values, kw)[0];
    PlainInsertAssembled(ts, table, values, kw);
  }

  lemma PlainInsertAssembled(ts: seq<string>, table: string, values: seq<string>, kw: Keywords)
    requires kw.Spelled()
    requires |ts| > 3 && ts[1] == kw.intoWord && ts[2] == table != "" && ts[3] != "(" && values != []
    requires Values(ts, 3) == values
    ensures InsertOk(ts) && InsertAttributes(ts) == Meaning(Insert(table, None, values))
  {
  }

  /** What a list of values begins with when it is printed. */
  lemma FirstOfValues(values: seq<string>, kw: Keywords)
    requires kw.Spelled() && values != []
    ensures PrintValues(values, kw) != []
    ensures PrintValues(values, kw)[0] ==
            if kw.withValues then kw.valuesWord else if kw.withBrackets then "(" else values[0]
    ensures kw.valuesWord != "("
  {
    assert |kw.valuesWord| == |ToUpper(kw.valuesWord)| == 6;
  }

  lemma NamedInsertReadBack(table: string, names: seq<string>, values: seq<string>, kw: Keywords)
    requires kw.Spelled()
    requires Admissible(Insert(table, Some(names), values)) && Suits(Insert(table, Some(names), values), kw)
    ensures var ts := Print(Insert(table, Some(names), values), kw);
            InsertOk(ts) && InsertAttributes(ts) == Meaning(Insert(table, Some(names), values))
  {
    hide InsertOk, InsertAttributes, Meaning, Columns, Values, InsertNext, ListItems, ListNext, JoinCommas, Separated, ToUpper;
    assert table != "";
    hide PrintValues, NoClauseWord, IsToken;
    var ts := Print(Insert(table, Some(names), values), kw);
    var listed, stored := Separated(names), PrintValues(values, kw);
    var head, tail := [kw.insertWord, kw.intoWord, table, "("], [")"] + stored;
    assert ts == head + listed + tail;
    ListReadBack(head, names, tail, true);
    NamesRead(ts, head, names, tail);
    var before := head + listed + [")"];
    assert ts == before + stored;
    ValuesRead(ts, before, values, kw);
    NamedInsertAssembled(ts, table, names, values, kw);
  }

  lemma NamedInsertAssembled(ts: seq<string>, table: string, names: seq<string>, values: seq<string>, kw: Keywords)
    requires kw.Spelled()
    requires |ts| > 3 && ts[1] == kw.intoWord && ts[2] == table != "" && ts[3] == "(" && values != []
    requires Columns(ts, 3) == names && Values(ts, InsertNext(ts)) == values
    ensures InsertOk(ts) && InsertAttributes(ts) == Meaning(Insert(table, Some(names), values))
  {
  }

  lemma ValuesRead(ts: seq<string>, before: seq<string>, values: seq<string>, kw: Keywords)
    requires kw.Spelled()
    requires Items(values) && values != [] && ts == before + PrintValues(values, kw)
    requires !kw.withBrackets ==> values[0] != "("
    requires !kw.withBrackets && !kw.withValues ==> ToUpper(values[0]) != "VALUES"
    ensures Values(ts, |before|) == values
  {
    hide ListItems, ListNext, IsToken, ClauseKeyword;
    var head := before + (if kw.withValues then [kw.valuesWord] else []) + (if kw.withBrackets then ["("] else []);
    var tail := if kw.withBrackets then [")"] else [];
    assert ts == head + Separated(values) + tail;
    ListReadBack(head, values, tail, false);
    assert Separated(values)[0] == values[0] && ts[|head|] == values[0];
    assert kw.withValues ==> ts[|before|] == kw.valuesWord;
    assert kw.withBrackets ==> ts[|head| - 1] == "(";
    FirstOfValues(values, kw);
    assert ToUpper("(")[0] == '(';
    assert ValuesFrom(ts, |before|) == |head|;
  }

  lemma NamesRead(ts: seq<string>, head: seq<string>, names: seq<string>, tail: seq<string>)
    requires |head| == 4 && ts == head + Separated(names) + tail && ts[3] == "("
    requires tail != [] && tail[0] == ")" && ListItems(ts, 4, true) == names
    requires ListNext(ts, 4, true) == 5 + |Separated(names)|
    ensures Columns(ts, 3) == names && InsertNext(ts) == 5 + |Separated(names)|
  {
  }

  lemma UpdateReadBack(table: string, column: string, value: string, where: Option<Condition>, kw: Keywords)
    requires kw.Spelled()
    requires Admissible(Update(table, column, value, where))
    ensures var ts := Print(Update(table, column, value, where), kw);
            UpdateOk(ts) && UpdateAttributes(ts) == Meaning(Update(table, column, value, where))
  {
    WhereReadBack([kw.updateWord, table, kw.setWord, column, "=", value], where, kw);
  }

  lemma DeleteReadBack(table: string, where: Option<Condition>, kw: Keywords)
    requires kw.Spelled()
    requires Admissible(Delete(table, where)) && Suits(Delete(table, where), kw)
    ensures var ts := Print(Delete(table, where), kw);
            DeleteOk(ts) && DeleteAttributes(ts) == Meaning(Delete(table, where))
  {
    var before := if kw.withFrom then [kw.deleteWord, kw.fromWord, table] else [kw.deleteWord, table];
    WhereReadBack(before, where, kw);
    assert Print(Delete(table, where), kw)[1] == before[1];
  }

  lemma CreateReadBack(table: string, defs: seq<ColumnDef>, kw: Keywords)
    requires kw.Spelled()
    requires Admissible(CreateTable(table, defs))
    ensures var ts := Print(CreateTable(table, defs), kw);
            CreateOk(ts) && CreateAttributes(ts) == Meaning(CreateTable(table, defs))
  {
    assert table != "";
    hide NoTypeWord, IsToken, AdmissibleParts;
    DefinitionsReadBack(defs);
    var head, body := [kw.createWord, kw.tableWord, table, "("], PrintDefinitions(defs) + [")"];
    ColumnNamesShift(head, body, 0);
    var ts := Print(CreateTable(table, defs), kw);
    assert ts == head + body;
    hide ToUpper, ColumnNames, PrintDefinitions, Meaning;
    assert ts[1] == kw.tableWord && ts[2] == table && ts[3] == "(";
    CreateAssembled(ts, table, defs);
  }

  lemma CreateAssembled(ts: seq<string>, table: string, defs: seq<ColumnDef>)
    requires |ts| > 3 && ToUpper(ts[1]) == "TABLE" && ts[2] == table != "" && ts[3] == "("
    requires defs != [] && ColumnNames(ts, 4) == Names(defs)
    ensures CreateOk(ts) && CreateAttributes(ts) == Meaning(CreateTable(table, defs))
  {
  }

  lemma QueryReadBack(s: Statement, kw: Keywords)
    requires kw.Spelled()
    requires Admissible(s) && Suits(s, kw)
    ensures var ts := Print(s, kw); QueryType(ts) == TypeOf(s) && QueryOk(ts) && QueryAttributes(ts) == Meaning(s)
  {
    hide ToUpper, SelectOk, InsertOk, UpdateOk, DeleteOk, CreateOk;
    hide SelectAttributes, InsertAttributes, UpdateAttributes, DeleteAttributes, CreateAttributes, Meaning, Admissible;
    match s
    case Select(columns, table, where) => SelectReadBack(columns, table, where, kw);
    case Insert(table, None, values) => PlainInsertReadBack(table, values, kw);
    case Insert(table, Some(names), values) => NamedInsertReadBack(table, names, values, kw);
    case Update(table, column, value, where) => UpdateReadBack(table, column, value, where, kw);
    case Delete(table, where) => DeleteReadBack(table, where, kw);
    case CreateTable(table, defs) => CreateReadBack(table, defs, kw);
  }

  predicate AllTokens(ts: seq<string>) {
    forall i :: 0 <= i < |ts| ==> IsToken(ts[i])
  }

  lemma SeparatedAllTokens(items: seq<string>)
    requires AllTokens(items)
    ensures AllTokens(Separated(items))
  {
    forall i | 0 <= i < |Separated(items)| ensures IsToken(Separated(items)[i]) {
      SeparatedTokens(items, i);
    }
  }

  lemma PartAllTokens(part: TypePart)
    requires AdmissiblePart(part) && IsToken(part.written)
    ensures AllTokens(PrintPart(part))
  {
    assert IsToken("(") && IsToken(")");
    hide IsToken;
  }

  lemma {:induction false} PartsAllTokens(parts: seq<TypePart>)
    requires AdmissibleParts(parts)
    ensures AllTokens(PrintParts(parts))
    decreases |parts|
  {
    if parts != [] {
      WrittenTypeWord(parts[0]);
      PartAllTokens(parts[0]);
      PartsAllTokens(parts[1..]);
    }
  }

  lemma {:induction false} DefinitionsAllTokens(defs: seq<ColumnDef>)
    requires AdmissibleDefinitions(defs)
    ensures AllTokens(PrintDefinitions(defs))
    decreases |defs|
  {
    if defs != [] {
      PartsAllTokens(defs[0].parts);
      DefinitionsAllTokens(defs[1..]);
    }
  }

  lemma AllTokensAppend(a: seq<string>, b: seq<string>)
    requires AllTokens(a) && AllTokens(b)
    ensures AllTokens(a + b)
  {
  }

  lemma SpelledIsToken(w: string, upper: string)
    requires ToUpper(w) == upper != "" && forall i :: 0 <= i < |upper| ==> 'A' <= upper[i] <= 'Z'
    ensures IsToken(w)
  {
    forall i | 0 <= i < |w| ensures IsPlain(w[i]) {
      assert ToUpper(w)[i] == UpperChar(w[i]);
    }
  }

  lemma KeywordsAreTokens(kw: Keywords)
    requires kw.Spelled()
    ensures IsToken(kw.selectWord)
    ensures IsToken(kw.fromWord)
    ensures IsToken(kw.whereWord)
    ensures IsToken(kw.insertWord)
    ensures IsToken(kw.intoWord)
    ensures IsToken(kw.valuesWord)
    ensures IsToken(kw.updateWord)
    ensures IsToken(kw.setWord)
    ensures IsToken(kw.deleteWord)
    ensures IsToken(kw.createWord)
    ensures IsToken(kw.tableWord)
    ensures IsToken("=") && IsToken("(") && IsToken(")") && IsToken("*")
  {
    SpelledIsToken(kw.selectWord, "SELECT");
    SpelledIsToken(kw.fromWord, "FROM");
    SpelledIsToken(kw.whereWord, "WHERE");
    SpelledIsToken(kw.insertWord, "INSERT");
    SpelledIsToken(kw.intoWord, "INTO");
    SpelledIsToken(kw.valuesWord, "VALUES");
    SpelledIsToken(kw.updateWord, "UPDATE");
    SpelledIsToken(kw.setWord, "SET");
    SpelledIsToken(kw.deleteWord, "DELETE");
    SpelledIsToken(kw.createWord, "CREATE");
    SpelledIsToken(kw.tableWord, "TABLE");
  }

  lemma ValuesAllTokens(values: seq<string>, kw: Keywords)
    requires kw.Spelled() && Items(values)
    ensures AllTokens(PrintValues(values, kw))
  {
    KeywordsAreTokens(kw);
    hide IsToken, Separated;
    SeparatedAllTokens(values);
  }

  lemma PrintAllTokens(s: Statement, kw: Keywords)
    requires kw.Spelled()
    requires Admissible(s)
    ensures AllTokens(Print(s, kw))
  {
    hide IsToken, Separated, PrintDefinitions, PrintValues, NoClauseWord, NoTypeWord;
    KeywordsAreTokens(kw);
    match s
    case Select(columns, table, where) =>
      SeparatedAllTokens(columns);
      AllTokensAppend([kw.selectWord], Separated(columns));
      AllTokensAppend([kw.fromWord, table], PrintWhere(where, kw));
      AllTokensAppend([kw.selectWord] + Separated(columns), [kw.fromWord, table] + PrintWhere(where, kw));
    case Insert(table, None, values) =>
      ValuesAllTokens(values, kw);
      AllTokensAppend([kw.insertWord, kw.intoWord, table], PrintValues(values, kw));
    case Insert(table, Some(names), values) =>
      ValuesAllTokens(values, kw);
      SeparatedAllTokens(names);
      AllTokensAppend([kw.insertWord, kw.intoWord, table, "("], Separated(names));
      AllTokensAppend([")"], PrintValues(values, kw));
      AllTokensAppend([kw.insertWord, kw.intoWord, table, "("] + Separated(names), [")"] + PrintValues(values, kw));
    case Update(table, column, value, where) =>
      AllTokensAppend([kw.updateWord, table, kw.setWord, column, "=", value], PrintWhere(where, kw));
    case Delete(table, where) =>
      AllTokensAppend(if kw.withFrom then [kw.deleteWord, kw.fromWord, table] else [kw.deleteWord, table],
                      PrintWhere(where, kw));
    case CreateTable(table, defs) =>
      DefinitionsAllTokens(defs);
      AllTokensAppend([kw.createWord, kw.tableWord, table, "("], PrintDefinitions(defs) + [")"]);
  }

  /**
   * Printing an admissible statement, its keywords spelled in any mixture of cases, and reading the text back gives
   * its tokens, its type and its meaning.
   */
  lemma StatementRoundTrip(s: Statement, kw: Keywords)
    requires kw.Spelled()
    requires Admissible(s) && Suits(s, kw)
    ensures var ts := Lex(Join(Print(s, kw)), "", Outside);
            ts == Print(s, kw) && QueryType(ts) == TypeOf(s) && QueryOk(ts) && QueryAttributes(ts) == Meaning(s)
  {
    PrintAllTokens(s, kw);
    RoundTrip(Print(s, kw));
    QueryReadBack(s, kw);
  }

  /** The same for the parser itself. */
  method ParsePrinted(s: Statement, kw: Keywords) returns (result: ParseResult)
    requires kw.Spelled()
    requires Admissible(s) && Suits(s, kw)
    ensures result.success && result.kind == TypeOf(s) && result.attributes == Meaning(s) && result.tokens == Print(s, kw)
  {
    StatementRoundTrip(s, kw);
    result := ParseQuery(Join(Print(s, kw)));
  }

  // ---- nothing is confused ----

  lemma {:induction false} JoinFront(items: seq<string>)
    requires |items| >= 2
    ensures JoinCommas(items) == items[0] + "," + JoinCommas(items[1..])
    decreases |items|
  {
    var n := |items| - 1;
    assert items[1..][..n - 1] == items[1..n] && items[1..][n - 1] == items[n];
    if n == 1 {
      assert items[..1] == [items[0]] && items[1..] == [items[1]];
    } else {
      JoinFront(items[..n]);
      assert items[..n][1..] == items[1..n];
      assert items[0] + "," + JoinCommas(items[1..n]) + "," + items[n]
          == items[0] + "," + (JoinCommas(items[1..n]) + "," + items[n]);
    }
  }

  /** Tokenizing a joined list takes it apart again, also where a quoted item contains commas. */
  lemma {:induction false} SplitBack(items: seq<string>)
    requires AllTokens(items)
    ensures Lex(JoinCommas(items), "", Outside) == Separated(items)
    decreases |items|
  {
    if |items| == 1 {
      LexToken(items[0], "");
    } else if |items| >= 2 {
      JoinFront(items);
      LexBeforeComma(items[0], JoinCommas(items[1..]));
      SplitBack(items[1..]);
    }
  }

  /** Two lists of items that join to the same text are the same. */
  lemma ItemsUnique(a: seq<string>, b: seq<string>)
    requires Items(a) && Items(b) && JoinCommas(a) == JoinCommas(b)
    ensures a == b
  {
    SplitBack(a);
    SplitBack(b);
    DropSeparators(a);
    DropSeparators(b);
  }

  /** A statement without the type parts, which no parse reports. */
  function Bare(s: Statement): Statement {
    if s.CreateTable? then s.(definitions := BareDefinitions(s.definitions)) else s
  }

  function BareDefinitions(defs: seq<ColumnDef>): (bare: seq<ColumnDef>)
    ensures Names(bare) == Names(defs)
  {
    if defs == [] then [] else [ColumnDef(defs[0].name, [])] + BareDefinitions(defs[1..])
  }

  lemma {:induction false} NamesDecide(a: seq<ColumnDef>, b: seq<ColumnDef>)
    requires Names(a) == Names(b)
    ensures BareDefinitions(a) == BareDefinitions(b)
    decreases |a|
  {
    if a != [] {
      assert b != [] && Names(a)[1..] == Names(a[1..]) && Names(b)[1..] == Names(b[1..]);
      NamesDecide(a[1..], b[1..]);
    }
  }

  lemma {:induction false} NamesAreItems(defs: seq<ColumnDef>)
    requires AdmissibleDefinitions(defs)
    ensures Items(Names(defs))
    decreases |defs|
  {
    if defs != [] {
      NamesAreItems(defs[1..]);
    }
  }

  lemma WhereDecides(v: Option<Condition>, w: Option<Condition>, a: Attributes, b: Attributes)
    requires "where_column" !in a && "where_column" !in b
    requires a + WhereMeaning(v) == b + WhereMeaning(w)
    ensures v == w
  {
    var m, n := a + WhereMeaning(v), b + WhereMeaning(w);
    assert "where_column" in m <==> v.Some?;
    assert "where_column" in n <==> w.Some?;
    if v.Some? {
      assert m["where_column"] == v.value.column && m["where_operator"] == v.value.op && m["where_value"] == v.value.value;
      assert n["where_column"] == w.value.column && n["where_operator"] == w.value.op && n["where_value"] == w.value.value;
    }
  }

  lemma SelectDecided(a: Statement, b: Statement)
    requires a.Select? && b.Select? && Admissible(a) && Admissible(b) && Meaning(a) == Meaning(b)
    ensures a == b
  {
    WhereDecides(a.where, b.where, map["columns" := JoinCommas(a.columns), "table" := a.table],
                 map["columns" := JoinCommas(b.columns), "table" := b.table]);
    assert Meaning(a)["columns"] == JoinCommas(a.columns) && Meaning(b)["columns"] == JoinCommas(b.columns);
    assert Meaning(a)["table"] == a.table && Meaning(b)["table"] == b.table;
    assert Items(["*"]);
    ItemsUnique(a.columns, b.columns);
  }

  lemma InsertDecided(a: Statement, b: Statement)
    requires a.Insert? && b.Insert? && Admissible(a) && Admissible(b) && Meaning(a) == Meaning(b)
    ensures a == b
  {
    assert "columns" in Meaning(a) <==> a.names.Some?;
    assert "columns" in Meaning(b) <==> b.names.Some?;
    assert Meaning(a)["table"] == a.table && Meaning(b)["table"] == b.table;
    assert Meaning(a)["values"] == JoinCommas(a.values) && Meaning(b)["values"] == JoinCommas(b.values);
    ItemsUnique(a.values, b.values);
    if a.names.Some? {
      assert Meaning(a)["columns"] == JoinCommas(a.names.value) && Meaning(b)["columns"] == JoinCommas(b.names.value);
      ItemsUnique(a.names.value, b.names.value);
    }
  }

  lemma UpdateDecided(a: Statement, b: Statement)
    requires a.Update? && b.Update? && Meaning(a) == Meaning(b)
    ensures a == b
  {
    WhereDecides(a.where, b.where, map["table" := a.table, "set_column" := a.column, "set_value" := a.value],
                 map["table" := b.table, "set_column" := b.column, "set_value" := b.value]);
    assert Meaning(a)["table"] == a.table && Meaning(b)["table"] == b.table;
    assert Meaning(a)["set_column"] == a.column && Meaning(b)["set_column"] == b.column;
    assert Meaning(a)["set_value"] == a.value && Meaning(b)["set_value"] == b.value;
  }

  lemma DeleteDecided(a: Statement, b: Statement)
    requires a.Delete? && b.Delete? && Meaning(a) == Meaning(b)
    ensures a == b
  {
    WhereDecides(a.where, b.where, map["table" := a.table], map["table" := b.table]);
    assert Meaning(a)["table"] == a.table && Meaning(b)["table"] == b.table;
  }

  lemma CreateDecided(a: Statement, b: Statement)
    requires a.CreateTable? && b.CreateTable? && Admissible(a) && Admissible(b)
    ensures Meaning(a) == Meaning(b) <==> Bare(a) == Bare(b)
  {
    assert Meaning(a)["table"] == a.table && Meaning(b)["table"] == b.table;
    assert Meaning(a)["columns"] == JoinCommas(Names(a.definitions));
    assert Meaning(b)["columns"] == JoinCommas(Names(b.definitions));
    if Meaning(a) == Meaning(b) {
      NamesAreItems(a.definitions);
      NamesAreItems(b.definitions);
      ItemsUnique(Names(a.definitions), Names(b.definitions));
      NamesDecide(a.definitions, b.definitions);
    }
  }

  /** Statements of one type are reported alike exactly when they are the same up to the types of their columns. */
  lemma MeaningDecides(a: Statement, b: Statement)
    requires Admissible(a) && Admissible(b) && TypeOf(a) == TypeOf(b)
    ensures Meaning(a) == Meaning(b) <==> Bare(a) == Bare(b)
  {
    hide Meaning, Admissible;
    if a.CreateTable? {
      CreateDecided(a, b);
    } else if Meaning(a) == Meaning(b) {
      match a
      case Select(_, _, _) => SelectDecided(a, b);
      case Insert(_, _, _) => InsertDecided(a, b);
      case Update(_, _, _, _) => UpdateDecided(a, b);
      case Delete(_, _) => DeleteDecided(a, b);
    }
  }
}
