/** The schema of a table: the layout its columns give a row, and the text file it is kept in. */
module Schemas {
  import opened Columns
  import opened StringUtils
  import opened Wrappers

  // ---------- row layout ----------

  /** The size of all columns together, before it is cut to 16 bits. */
  function Total(columns: seq<Column>): nat {
    if columns == [] then 0 else Total(columns[..|columns| - 1]) + columns[|columns| - 1].size
  }

  /** Column i is the last with its name. */
  predicate LastNamed(columns: seq<Column>, i: int) {
    0 <= i < |columns| && forall j :: i < j < |columns| ==> columns[j].name != columns[i].name
  }

  predicate LastPrimary(columns: seq<Column>, i: int) {
    0 <= i < |columns| && columns[i].keyType.Primary? && forall j :: i < j < |columns| ==> !columns[j].keyType.Primary?
  }

  datatype Layout = Layout(columns: seq<Column>, offset: map<string, uint16>, totalSize: uint16,
                           primaryOffset: uint16, primarySize: uint16, keySizeFixed: bool, rowSizeFixed: bool)

  /** The empty schema has no size, and a column adds its own. */
  lemma TotalMeans(columns: seq<Column>, column: Column)
    ensures Total([]) == 0 && Total(columns + [column]) == Total(columns) + column.size
  {
    assert (columns + [column])[..|columns|] == columns;
  }

  /** Where column i starts, in 16 bits. */
  function Start(columns: seq<Column>, i: nat): uint16
    requires i <= |columns|
  {
    Total(columns[..i]) % 0x1_0000
  }

  /** Each name is placed where its last column starts, and no other name is placed. */
  ghost predicate OffsetsLaid(columns: seq<Column>, offset: map<string, uint16>) {
    && (forall name :: name in offset ==> exists i :: LastNamed(columns, i) && columns[i].name == name)
    && (forall i {:trigger LastNamed(columns, i)} :: LastNamed(columns, i) ==>
          columns[i].name in offset && offset[columns[i].name] == Start(columns, i))
  }

  /** The last primary column gives the primary fields; without one they are 0. */
  ghost predicate PrimaryLaid(columns: seq<Column>, primaryOffset: uint16, primarySize: uint16) {
    && (forall i {:trigger LastPrimary(columns, i)} :: LastPrimary(columns, i) ==>
          primaryOffset == Start(columns, i) && primarySize == columns[i].size)
    && ((forall i :: 0 <= i < |columns| ==> !columns[i].keyType.Primary?) ==>
          primaryOffset == 0 && primarySize == 0)
  }

  predicate SizesFixed(columns: seq<Column>) {
    forall i :: 0 <= i < |columns| ==> columns[i].size != 0
  }

  predicate KeySizesFixed(columns: seq<Column>) {
    forall i :: 0 <= i < |columns| ==> columns[i].size != 0 || columns[i].keyType.NotKey?
  }

  /** What the derived fields say about the columns. */
  ghost predicate LaidOut(l: Layout) {
    && l.totalSize == Start(l.columns, |l.columns|)
    && OffsetsLaid(l.columns, l.offset)
    && PrimaryLaid(l.columns, l.primaryOffset, l.primarySize)
    && l.rowSizeFixed == SizesFixed(l.columns)
    && l.keySizeFixed == KeySizesFixed(l.columns)
  }

  /** The last column with a given name, when there is one. */
  lemma {:induction false} SomeLastNamed(columns: seq<Column>, i: nat) returns (k: nat)
    requires i < |columns|
    ensures LastNamed(columns, k) && columns[k].name == columns[i].name
    decreases |columns| - i
  {
    k := i;
    if !LastNamed(columns, i) {
      var j :| i < j < |columns| && columns[j].name == columns[i].name;
      k := SomeLastNamed(columns, j);
    }
  }

  lemma {:induction false} SomeLastPrimary(columns: seq<Column>, i: nat) returns (k: nat)
    requires i < |columns| && columns[i].keyType.Primary?
    ensures LastPrimary(columns, k)
    decreases |columns| - i
  {
    k := i;
    if !LastPrimary(columns, i) {
      var j :| i < j < |columns| && columns[j].keyType.Primary?;
      k := SomeLastPrimary(columns, j);
    }
  }

  lemma OffsetsUnique(columns: seq<Column>, a: map<string, uint16>, b: map<string, uint16>)
    requires OffsetsLaid(columns, a) && OffsetsLaid(columns, b)
    ensures a == b
  {
    hide Start;
    forall name | name in a ensures name in b && a[name] == b[name] {
      var i :| LastNamed(columns, i) && columns[i].name == name;
    }
    forall name | name in b ensures name in a {
      var i :| LastNamed(columns, i) && columns[i].name == name;
    }
  }

  /** The columns determine everything else. */
  lemma LayoutUnique(a: Layout, b: Layout)
    requires LaidOut(a) && LaidOut(b) && a.columns == b.columns
    ensures a == b
  {
    hide Start, OffsetsLaid, SizesFixed, KeySizesFixed, LastPrimary;
    OffsetsUnique(a.columns, a.offset, b.offset);
    if i :| 0 <= i < |a.columns| && a.columns[i].keyType.Primary? {
      var k := SomeLastPrimary(a.columns, i);
    }
  }

  predicate DistinctNames(columns: seq<Column>) {
    forall i, j :: 0 <= i < j < |columns| ==> columns[i].name != columns[j].name
  }

  lemma {:induction false} TotalGrows(columns: seq<Column>, i: nat, j: nat)
    requires i <= j <= |columns|
    ensures Total(columns[..i]) <= Total(columns[..j])
    ensures i < j ==> Total(columns[..i]) + columns[i].size <= Total(columns[..j])
    decreases j
  {
    if i < j {
      assert columns[..j][..j - 1] == columns[..j - 1];
      TotalGrows(columns, i, j - 1);
    }
  }

  lemma Placed(l: Layout, i: nat)
    requires LaidOut(l) && DistinctNames(l.columns) && i < |l.columns|
    ensures l.columns[i].name in l.offset && l.offset[l.columns[i].name] == Start(l.columns, i)
  {
    hide Start;
    assert LastNamed(l.columns, i);
  }

  /** A start is exact exactly while the columns before it fit 16 bits. */
  lemma StartExact(columns: seq<Column>, i: nat)
    requires i <= |columns|
    ensures Start(columns, i) == Total(columns[..i]) <==> Total(columns[..i]) <= 65535
  {
    hide Total;
  }

  /** With distinct names and a total that fits 16 bits, every column has its own place within the row. */
  lemma FieldsDisjoint(l: Layout, i: nat, j: nat)
    requires LaidOut(l) && DistinctNames(l.columns) && i < |l.columns| && j < |l.columns|
    requires Total(l.columns) <= 65535
    ensures l.totalSize == Total(l.columns)
    ensures l.columns[i].name in l.offset && l.columns[j].name in l.offset
    ensures l.offset[l.columns[i].name] == Total(l.columns[..i])
    ensures l.offset[l.columns[i].name] + l.columns[i].size <= l.totalSize
    ensures i < j ==> l.offset[l.columns[i].name] + l.columns[i].size <= l.offset[l.columns[j].name]
  {
    hide Total, Start, OffsetsLaid, PrimaryLaid, DistinctNames;
    var n := |l.columns|;
    assert l.columns[..n] == l.columns;
    StartExact(l.columns, n);
    Placed(l, i);
    Placed(l, j);
    TotalGrows(l.columns, i, n);
    TotalGrows(l.columns, j, n);
    StartExact(l.columns, i);
    StartExact(l.columns, j);
    if i < j {
      TotalGrows(l.columns, i, j);
    }
  }

  /** Under the same conditions the columns lie back to back, from 0 to the end of the row. */
  lemma FieldsAdjacent(l: Layout, i: nat)
    requires LaidOut(l) && i < |l.columns| && Total(l.columns) <= 65535
    requires forall j, k :: 0 <= j < k < |l.columns| ==> l.columns[j].name != l.columns[k].name
    ensures l.columns[i].name in l.offset
    ensures i == 0 ==> l.offset[l.columns[i].name] == 0
    ensures i > 0 ==> l.columns[i - 1].name in l.offset
    ensures i > 0 ==> l.offset[l.columns[i].name] == l.offset[l.columns[i - 1].name] + l.columns[i - 1].size
    ensures i == |l.columns| - 1 ==> l.totalSize == l.offset[l.columns[i].name] + l.columns[i].size
  {
    hide Total, Start, OffsetsLaid, PrimaryLaid;
    var columns := l.columns;
    FieldsDisjoint(l, i, if i > 0 then i - 1 else i);
    FieldsDisjoint(l, if i > 0 then i - 1 else i, i);
    TotalMeans(columns[..i], columns[i]);
    assert columns[..i + 1] == columns[..i] + [columns[i]];
    if i > 0 {
      TotalMeans(columns[..i - 1], columns[i - 1]);
      assert columns[..i] == columns[..i - 1] + [columns[i - 1]];
    } else {
      assert columns[..i] == [];
    }
    if i == |columns| - 1 {
      assert columns[..i + 1] == columns;
    }
  }

  // ---------- text form ----------

  function Fields(column: Column): seq<string> {
    [column.name, Numeral(column.size), ColumnTypeString(column.columnType), KeyTypeString(column.keyType)]
  }

  function LineOf(column: Column): string {
    column.name + ":" + Numeral(column.size) + ":" + ColumnTypeString(column.columnType) + ":"
    + KeyTypeString(column.keyType)
  }

  function Printed(columns: seq<Column>): string {
    if columns == [] then "" else LineOf(columns[0]) + "\n" + Printed(columns[1..])
  }

  /** std::getline: the text up to the first newline, and what follows it. */
  function GetLine(text: string): (r: (string, string))
    ensures text != [] ==> |r.1| < |text|
    ensures '\n' !in r.0
  {
    if text == [] then ([], [])
    else if text[0] == '\n' then ([], text[1..])
    else var (line, rest) := GetLine(text[1..]); ([text[0]] + line, rest)
  }

  datatype SchemaError = TrimOverrun | InvalidLine | InvalidSize(e: NumberError)

  datatype LineResult = Skipped | Got(column: Column) | Failed(error: SchemaError)

  function ReadTokens(tokens: seq<string>): LineResult {
    if |tokens| != 4 then Failed(InvalidLine) else
    match Stoul(tokens[1])
    case Err(e) => Failed(InvalidSize(e))
    case Ok(size) => Got(Column(tokens[0], size % 0x1_0000, ParseColumnType(tokens[2]), ParseKeyType(tokens[3])))
  }

  function ReadLine(line: string): LineResult {
    if OnlyAtFront(line) then Failed(TrimOverrun) else
    var trimmed := Trimmed(line);
    if trimmed == [] || trimmed[0] == '#' then Skipped else ReadTokens(Tokens(trimmed, ':'))
  }

  datatype Outcome = Outcome(columns: seq<Column>, error: Option<SchemaError>)

  /** The columns a text adds, and the error that ends the reading, if one does. */
  function ReadText(text: string): Outcome
    decreases |text|
  {
    if text == [] then Outcome([], None) else
    var (line, rest) := GetLine(text);
    match ReadLine(line)
    case Failed(error) => Outcome([], Some(error))
    case Skipped => ReadText(rest)
    case Got(column) => var tail := ReadText(rest); Outcome([column] + tail.columns, tail.error)
  }

  /** The names a schema file can hold. */
  predicate GoodName(name: string) {
    ':' !in name && '\n' !in name && (name != [] ==> name[0] != '#' && !IsSpace(name[0]))
  }

  predicate GoodNames(columns: seq<Column>) {
    forall i :: 0 <= i < |columns| ==> GoodName(columns[i].name)
  }

  // ---------- printing and reading back ----------

  lemma FieldsPlain(column: Column, separator: char)
    requires separator == ':' || separator == '\n'
    ensures forall k :: 1 <= k < 4 ==> separator !in Fields(column)[k]
  {
    TypeStringsPlain(column.columnType, column.keyType);
  }

  lemma LineJoins(column: Column)
    ensures LineOf(column) == Joined(Fields(column), ':')
  {
    var f := Fields(column);
    assert f[1..] == [f[1], f[2], f[3]] && f[1..][1..] == [f[2], f[3]] && f[1..][1..][1..] == [f[3]];
    assert Joined([f[3]], ':') == f[3];
    assert Joined([f[2], f[3]], ':') == f[2] + [':'] + f[3];
    assert Joined([f[1], f[2], f[3]], ':') == f[1] + [':'] + (f[2] + [':'] + f[3]);
    assert Joined(f, ':') == f[0] + [':'] + (f[1] + [':'] + (f[2] + [':'] + f[3]));
  }

  lemma LineTokens(column: Column)
    requires ':' !in column.name
    ensures Tokens(LineOf(column), ':') == Fields(column)
  {
    hide Numeral, ColumnTypeString, KeyTypeString;
    LineJoins(column);
    FieldsPlain(column, ':');
    JoinSplits(Fields(column), ':');
  }

  lemma FieldsRead(column: Column)
    ensures ReadTokens(Fields(column)) == Got(column)
  {
    hide Numeral, NumeralValue, Stoul, ColumnTypeString, KeyTypeString, ParseColumnType, ParseKeyType;
    NumeralRoundTrip(column.size);
    var digits := Numeral(column.size);
    FieldsOfLine(column.name, "", digits, ColumnTypeString(column.columnType), KeyTypeString(column.keyType));
    assert "" + digits == digits;
    TypeStringsPlain(column.columnType, column.keyType);
    UpperPlain(ColumnTypeString(column.columnType));
    UpperPlain(KeyTypeString(column.keyType));
    ColumnTypeRoundTrip(column.columnType, ColumnTypeString(column.columnType));
    KeyTypeRoundTrip(column.keyType, KeyTypeString(column.keyType));
  }

  lemma LineKept(column: Column)
    requires GoodName(column.name)
    ensures var line := LineOf(column);
      && |line| > 1 && !IsSpace(line[0]) && !IsSpace(line[|line| - 1])
      && !OnlyAtFront(line) && Trimmed(line) == line && line[0] != '#' && '\n' !in line
  {
    hide Numeral, ColumnTypeString, KeyTypeString;
    var line := LineOf(column);
    TypeStringsPlain(column.columnType, column.keyType);
    FieldsPlain(column, '\n');
    var f := Fields(column);
    assert line[|line| - 1] == f[3][|f[3]| - 1];
    assert line[0] == if column.name == [] then ':' else column.name[0];
  }

  lemma LineRoundTrip(column: Column)
    requires GoodName(column.name)
    ensures ReadLine(LineOf(column)) == Got(column) && '\n' !in LineOf(column)
  {
    hide LineOf, Fields, ReadTokens;
    LineKept(column);
    LineTokens(column);
    FieldsRead(column);
  }

  lemma {:induction false} GetLineOf(line: string, rest: string)
    requires '\n' !in line
    ensures GetLine(line + "\n" + rest) == (line, rest)
  {
    var text := line + "\n" + rest;
    if line == [] {
      assert text[1..] == rest;
    } else {
      assert text[0] == line[0] && line[0] in line && line == [line[0]] + line[1..];
      GetLineOf(line[1..], rest);
      assert text[1..] == line[1..] + "\n" + rest;
    }
  }

  lemma {:induction false} PrintedReads(columns: seq<Column>)
    requires GoodNames(columns)
    ensures ReadText(Printed(columns)) == Outcome(columns, None)
  {
    hide LineOf, ReadLine, GoodName;
    if columns != [] {
      LineRoundTrip(columns[0]);
      GetLineOf(LineOf(columns[0]), Printed(columns[1..]));
      PrintedReads(columns[1..]);
      assert columns == [columns[0]] + columns[1..];
    }
  }

  lemma {:induction false} FirstToken(token: string, rest: string, separator: char)
    requires separator !in token
    ensures separator !in SplitFrom(token, rest, separator)[0] && SplitFrom(token, rest, separator)[0] <= token + rest
    decreases |rest|
  {
    if rest != [] && rest[0] != separator {
      FirstToken(token + [rest[0]], rest[1..], separator);
      assert token + [rest[0]] + rest[1..] == token + rest;
    }
  }

  lemma {:induction false} SkipSpacesWithin(s: string)
    ensures forall c :: c in SkipSpaces(s) ==> c in s
    ensures SkipSpaces(s) != [] ==> !IsSpace(SkipSpaces(s)[0])
  {
    if s != [] && IsSpace(s[0]) {
      SkipSpacesWithin(s[1..]);
    }
  }

  lemma TrimmedWithin(s: string)
    ensures forall c :: c in Trimmed(s) ==> c in s
    ensures Trimmed(s) != [] ==> !IsSpace(Trimmed(s)[0])
  {
    SkipSpacesWithin(s);
  }

  lemma LineNameGood(line: string)
    requires '\n' !in line && ReadLine(line).Got?
    ensures GoodName(ReadLine(line).column.name)
  {
    hide Trimmed, SplitFrom, Stoul, ParseColumnType, ParseKeyType;
    var trimmed := Trimmed(line);
    TrimmedWithin(line);
    FirstToken("", trimmed, ':');
    assert "" + trimmed == trimmed;
    var name := Tokens(trimmed, ':')[0];
    assert forall c :: c in name ==> c in trimmed;
  }

  /** Whatever the text, the names read from it are good. */
  lemma {:induction false} NamesReadAreGood(text: string)
    ensures GoodNames(ReadText(text).columns)
    decreases |text|
  {
    hide GoodName, ReadLine;
    if text != [] {
      var (line, rest) := GetLine(text);
      NamesReadAreGood(rest);
      if ReadLine(line).Got? {
        LineNameGood(line);
      }
    }
  }

  /** Reading undoes printing exactly for the columns whose names a file can hold. */
  lemma {:induction false} PrintReadRoundTrip(columns: seq<Column>)
    ensures ReadText(Printed(columns)) == Outcome(columns, None) <==> GoodNames(columns)
    ensures GoodNames(columns) <==> forall i :: 0 <= i < |columns| ==>
      var name := columns[i].name;
      ':' !in name && '\n' !in name && (name != [] ==> name[0] != '#' && !IsSpace(name[0]))
  {
    if GoodNames(columns) {
      PrintedReads(columns);
    }
    NamesReadAreGood(Printed(columns));
  }

  /** Every column adds one line at the end of the text, with its four fields between colons. */
  lemma {:induction false} PrintedRow(columns: seq<Column>, column: Column)
    ensures Printed(columns + [column])
         == Printed(columns)
            + (column.name + ":" + Numeral(column.size) + ":" + ColumnTypeString(column.columnType) + ":"
               + KeyTypeString(column.keyType) + "\n")
  {
    hide Numeral, ColumnTypeString, KeyTypeString;
    if columns != [] {
      PrintedRow(columns[1..], column);
      assert (columns + [column])[1..] == columns[1..] + [column];
    }
  }

  /** Printing what was read, and reading that, changes nothing. */
  lemma {:induction false} ReadIsCanonical(text: string)
    ensures ReadText(Printed(ReadText(text).columns)) == Outcome(ReadText(text).columns, None)
  {
    NamesReadAreGood(text);
    PrintedReads(ReadText(text).columns);
  }

  // ---------- lines that are not printed ----------

  predicate Blank(s: string) {
    forall c :: c in s ==> IsSpace(c)
  }

  /** The first character of line that is not whitespace is the # at k, and it is not all that trimming would look at. */
  predicate CommentAt(line: string, k: nat) {
    && k < |line| && line[k] == '#' && (forall i :: 0 <= i < k ==> IsSpace(line[i]))
    && (k > 0 || exists j :: 0 < j < |line| && !IsSpace(line[j]))
  }

  /** Blank lines and comments. A lone # at the very front is neither: trimming it reads past its end. */
  predicate Ignorable(line: string) {
    Blank(line) || exists k :: 0 <= k < |line| && CommentAt(line, k)
  }

  lemma {:induction false} FirstCharacter(s: string) returns (first: nat)
    requires !Blank(s)
    ensures first < |s| && !IsSpace(s[first]) && forall i :: 0 <= i < first ==> IsSpace(s[i])
  {
    if IsSpace(s[0]) {
      assert s == [s[0]] + s[1..];
      first := FirstCharacter(s[1..]);
      first := first + 1;
    } else {
      first := 0;
    }
  }

  lemma {:induction false} LastCharacter(s: string) returns (last: nat)
    requires !Blank(s)
    ensures last < |s| && !IsSpace(s[last]) && forall i :: last < i < |s| ==> IsSpace(s[i])
  {
    var n := |s| - 1;
    if IsSpace(s[n]) {
      assert s == s[..n] + [s[n]];
      last := LastCharacter(s[..n]);
    } else {
      last := n;
    }
  }

  /** What trimming leaves of a line that is not blank. */
  lemma TrimmedLine(line: string) returns (first: nat, last: nat)
    requires !Blank(line)
    ensures first <= last < |line| && Trimmed(line) == line[first..last + 1]
    ensures !IsSpace(line[first]) && !IsSpace(line[last])
    ensures forall i :: 0 <= i < first || last < i < |line| ==> IsSpace(line[i])
    ensures OnlyAtFront(line) <==> last == 0
  {
    first := FirstCharacter(line);
    last := LastCharacter(line);
    TrimmedBetween(line, first, last);
  }

  lemma BlankTrims(line: string)
    requires Blank(line)
    ensures Trimmed(line) == "" && !OnlyAtFront(line)
  {
    SkipSpacesAt(line, |line|);
    assert line != [] ==> line[0] in line;
  }

  /** Exactly the ignorable lines are passed over. */
  lemma SkippedIffIgnorable(line: string)
    ensures ReadLine(line).Skipped? <==> Ignorable(line)
  {
    hide Trimmed, ReadTokens, OnlyAtFront;
    ReadTokensReads(Tokens(Trimmed(line), ':'));
    if Blank(line) {
      BlankTrims(line);
    } else {
      var first, last := TrimmedLine(line);
      assert Trimmed(line)[0] == line[first];
      if line[first] == '#' && last > 0 {
        assert CommentAt(line, first);
      }
      forall k | 0 <= k < |line| && CommentAt(line, k) ensures k == first && last > 0 {
      }
    }
  }

  lemma ReadTokensReads(tokens: seq<string>)
    ensures !ReadTokens(tokens).Skipped?
  {
  }

  /** Reading a text that starts with a whole line. */
  lemma FirstLine(line: string, rest: string)
    requires '\n' !in line
    ensures var text := line + "\n" + rest;
      ReadText(text) == match ReadLine(line)
                        case Failed(error) => Outcome([], Some(error))
                        case Skipped => ReadText(rest)
                        case Got(column) => Outcome([column] + ReadText(rest).columns, ReadText(rest).error)
  {
    hide ReadLine;
    GetLineOf(line, rest);
  }

  /** A blank line or a comment changes nothing about what follows it. */
  lemma IgnoredLine(line: string, rest: string)
    requires '\n' !in line
    requires Blank(line) || exists k :: 0 <= k < |line| && CommentAt(line, k)
    ensures ReadText(line + "\n" + rest) == ReadText(rest)
  {
    hide ReadLine, ReadText, Blank, CommentAt;
    SkippedIffIgnorable(line);
    FirstLine(line, rest);
  }

  /** A line of a file: one to ignore, or a printed column between whitespace. */
  datatype Item = Ignored(line: string) | Padded(before: string, column: Column, after: string)

  function ItemLine(item: Item): string {
    match item
    case Ignored(line) => line
    case Padded(before, column, after) => before + LineOf(column) + after
  }

  predicate GoodItem(item: Item) {
    match item
    case Ignored(line) => '\n' !in line && Ignorable(line)
    case Padded(before, column, after) =>
      Blank(before) && Blank(after) && '\n' !in before && '\n' !in after && GoodName(column.name)
  }

  function TextOf(items: seq<Item>): string {
    if items == [] then "" else ItemLine(items[0]) + "\n" + TextOf(items[1..])
  }

  function ColumnsOf(items: seq<Item>): seq<Column> {
    if items == [] then []
    else (if items[0].Padded? then [items[0].column] else []) + ColumnsOf(items[1..])
  }

  lemma PaddedRead(before: string, column: Column, after: string)
    requires Blank(before) && Blank(after) && GoodName(column.name)
    ensures ReadLine(before + LineOf(column) + after) == Got(column)
  {
    hide LineOf, Fields, ReadTokens, Trimmed, Tokens, SplitFrom;
    LineKept(column);
    LineTokens(column);
    FieldsRead(column);
    var core := LineOf(column);
    var line, first, last := before + core + after, |before|, |before| + |core| - 1;
    assert line[first] == core[0] && line[last] == core[|core| - 1];
    forall i | 0 <= i < first || last < i < |line| ensures IsSpace(line[i]) {
      if i < first {
        assert line[i] == before[i] && before[i] in before;
      } else {
        assert line[i] == after[i - last - 1] && after[i - last - 1] in after;
      }
    }
    TrimmedBetween(line, first, last);
    assert line[first..last + 1] == core;
  }

  /** Printed columns, with whitespace around them and ignorable lines anywhere between, read as the columns. */
  lemma {:induction false} ItemsRead(items: seq<Item>, rest: string)
    requires forall i :: 0 <= i < |items| ==> GoodItem(items[i])
    ensures ReadText(TextOf(items) + rest)
         == Outcome(ColumnsOf(items) + ReadText(rest).columns, ReadText(rest).error)
  {
    hide ReadText, ItemLine, GoodItem;
    if items == [] {
      assert TextOf(items) + rest == rest;
    } else {
      ItemsRead(items[1..], rest);
      var line, tail := ItemLine(items[0]), TextOf(items[1..]);
      ItemThen(items[0], tail + rest);
      calc {
        TextOf(items) + rest;
        line + "\n" + tail + rest;
        line + "\n" + (tail + rest);
      }
    }
  }

  /** A whole file of such lines reads back as its columns, without an error. */
  lemma FileRead(items: seq<Item>)
    requires forall i :: 0 <= i < |items| ==> GoodItem(items[i])
    ensures ReadText(TextOf(items)) == Outcome(ColumnsOf(items), None)
  {
    hide GoodItem;
    ItemsRead(items, "");
    assert TextOf(items) + "" == TextOf(items);
  }

  lemma ItemThen(item: Item, rest: string)
    requires GoodItem(item)
    ensures ReadText(ItemLine(item) + "\n" + rest)
         == Outcome((if item.Padded? then [item.column] else []) + ReadText(rest).columns, ReadText(rest).error)
  {
    hide ReadLine, ReadText, ItemLine, GoodItem;
    ItemRead(item);
    FirstLine(ItemLine(item), rest);
  }

  lemma ItemRead(item: Item)
    requires GoodItem(item)
    ensures '\n' !in ItemLine(item)
    ensures ReadLine(ItemLine(item)) == if item.Padded? then Got(item.column) else Skipped
  {
    hide ReadLine, LineOf, Ignorable, GoodName, Blank;
    match item
    case Ignored(line) =>
      SkippedIffIgnorable(line);
    case Padded(before, column, after) =>
      PaddedRead(before, column, after);
      LineKept(column);
  }

  /** A line that fails ends the reading; the columns before it stay. */
  lemma ErrorStops(items: seq<Item>, line: string, rest: string)
    requires forall i :: 0 <= i < |items| ==> GoodItem(items[i])
    requires '\n' !in line && ReadLine(line).Failed?
    ensures ReadText(TextOf(items) + (line + "\n" + rest)) == Outcome(ColumnsOf(items), Some(ReadLine(line).error))
  {
    hide ReadLine, GoodItem;
    ItemsRead(items, line + "\n" + rest);
    FirstLine(line, rest);
  }

  lemma {:induction false} TokenCount(token: string, rest: string, separator: char)
    ensures |SplitFrom(token, rest, separator)| == multiset(rest)[separator] + 1
    decreases |rest|
  {
    if rest != [] {
      assert rest == [rest[0]] + rest[1..];
      TokenCount(if rest[0] == separator then "" else token + [rest[0]], rest[1..], separator);
    }
  }

  lemma BlankColons(s: string)
    requires Blank(s)
    ensures multiset(s)[':'] == 0
  {
    assert ':' !in s;
  }

  lemma TrimmedColons(line: string)
    ensures multiset(Trimmed(line))[':'] == multiset(line)[':']
  {
    hide Trimmed;
    if Blank(line) {
      BlankTrims(line);
      BlankColons(line);
    } else {
      var first, last := TrimmedLine(line);
      assert line == line[..first] + line[first..last + 1] + line[last + 1..];
      assert Blank(line[..first]) && Blank(line[last + 1..]);
      BlankColons(line[..first]);
      BlankColons(line[last + 1..]);
    }
  }

  /** The lines that fail before a size is looked at. */
  lemma FailedLines(line: string)
    ensures ReadLine(line) == Failed(TrimOverrun) <==>
      line != [] && !IsSpace(line[0]) && forall i :: 0 < i < |line| ==> IsSpace(line[i])
    ensures ReadLine(line) == Failed(InvalidLine) <==>
      !OnlyAtFront(line) && !Ignorable(line) && multiset(line)[':'] != 3
  {
    hide Trimmed, Ignorable, SplitFrom, Stoul;
    SkippedIffIgnorable(line);
    TrimmedColons(line);
    TokenCount("", Trimmed(line), ':');
  }

  /** Four fields with a decimal size: the size, negated after a minus, is cut to 16 bits; too large a one fails. */
  lemma FieldsOfLine(name: string, sign: string, digits: string, columnType: string, keyType: string)
    requires digits != [] && AllDigits(digits) && (sign == "" || sign == "+" || sign == "-")
    ensures var n: int := NumeralValue(digits);
      ReadTokens([name, sign + digits, columnType, keyType])
      == if n >= 0x1_0000_0000_0000_0000 then Failed(InvalidSize(TooLarge))
         else Got(Column(name, (if sign == "-" then -n else n) % 0x1_0000,
                         ParseColumnType(columnType), ParseKeyType(keyType)))
  {
    hide NumeralValue, SignedPrefix, ParseColumnType, ParseKeyType;
    SignedPrefixReads("", sign, digits, "");
    assert "" + (sign + (digits + "")) == sign + digits;
  }

  /** A size without digits fails. */
  lemma SizeMissing(name: string, size: string, columnType: string, keyType: string)
    requires Blank(size) || (!IsSpace(size[0]) && !IsDigit(size[0]) && size[0] != '+' && size[0] != '-')
    ensures ReadTokens([name, size, columnType, keyType]) == Failed(InvalidSize(NoDigits))
  {
    if Blank(size) {
      SkipSpacesAt(size, |size|);
    }
  }

  /** A last line counts whether or not a newline ends it. */
  lemma {:induction false} LastLine(text: string)
    requires text != [] && text[|text| - 1] != '\n'
    ensures ReadText(text + "\n") == ReadText(text)
    decreases |text|
  {
    hide ReadLine;
    var (line, rest) := GetLine(text);
    GetLineSplits(text);
    if '\n' in text {
      assert rest != [] && rest[|rest| - 1] == text[|text| - 1];
      LastLine(rest);
      assert text + "\n" == line + "\n" + (rest + "\n");
      GetLineOf(line, rest + "\n");
    } else {
      assert text + "\n" == text + "\n" + "";
      GetLineOf(text, "");
    }
  }

  lemma {:induction false} GetLineSplits(text: string)
    ensures '\n' in text ==> text == GetLine(text).0 + "\n" + GetLine(text).1
    ensures '\n' !in text ==> GetLine(text) == (text, "")
  {
    if text != [] && text[0] != '\n' {
      GetLineSplits(text[1..]);
      assert text == [text[0]] + text[1..];
      var (line, rest) := GetLine(text[1..]);
      assert [text[0]] + (line + "\n" + rest) == [text[0]] + line + "\n" + rest;
    }
  }

  // ---------- the schema object ----------

  class Schema {
    var columns: seq<Column>
    var offset: map<string, uint16>
    var totalSize: uint16
    var primaryOffset: uint16
    var primarySize: uint16
    var keySizeFixed: bool
    var rowSizeFixed: bool

    function Contents(): Layout
      reads this
    {
      Layout(columns, offset, totalSize, primaryOffset, primarySize, keySizeFixed, rowSizeFixed)
    }

    ghost predicate Valid()
      reads this
    {
      LaidOut(Contents())
    }

    constructor ()
      ensures Valid() && columns == [] && offset == map[]
      ensures totalSize == 0 && primaryOffset == 0 && primarySize == 0 && keySizeFixed && rowSizeFixed
    {
      columns, offset := [], map[];
      totalSize, primaryOffset, primarySize := 0, 0, 0;
      keySizeFixed, rowSizeFixed := true, true;
    }

    method AddColumn(column: Column)
      requires Valid()
      modifies this
      ensures Valid() && columns == old(columns) + [column]
      ensures offset == old(offset)[column.name := old(totalSize)]
      ensures totalSize == (old(totalSize) + column.size) % 0x1_0000
      ensures if column.keyType == Primary then primaryOffset == old(totalSize) && primarySize == column.size
              else primaryOffset == old(primaryOffset) && primarySize == old(primarySize)
      ensures rowSizeFixed == (old(rowSizeFixed) && column.size > 0)
      ensures keySizeFixed == (old(keySizeFixed) && (column.size > 0 || column.keyType == NotKey))
    {
      hide OffsetsLaid, PrimaryLaid, SizesFixed, KeySizesFixed, Start;
      AddedLayout(columns, column, offset, primaryOffset, primarySize);
      if column.keyType.Primary? {
        primaryOffset := totalSize;
        primarySize := column.size;
      }
      offset := offset[column.name := totalSize];
      totalSize := (totalSize + column.size) % 0x1_0000;
      if column.size == 0 {
        rowSizeFixed := false;
        if !column.keyType.NotKey? {
          keySizeFixed := false;
        }
      }
      columns := columns + [column];
    }

    function GetOffset(name: string): (r: Option<uint16>)
      requires Valid()
      reads this
      ensures r.None? <==> forall i :: 0 <= i < |columns| ==> columns[i].name != name
      ensures forall i :: LastNamed(columns, i) && columns[i].name == name ==> r == Some(Start(columns, i))
    {
      assert forall i :: 0 <= i < |columns| && columns[i].name == name ==> name in offset by {
        forall i | 0 <= i < |columns| && columns[i].name == name ensures name in offset {
          var k := SomeLastNamed(columns, i);
        }
      }
      if name in offset then Some(offset[name]) else None
    }

    method Read(text: string) returns (error: Option<SchemaError>)
      requires Valid()
      modifies this
      ensures Valid()
      ensures columns == old(columns) + ReadText(text).columns && error == ReadText(text).error
    {
      hide LaidOut, Stoul, GetLine, OnlyAtFront, Trimmed, Tokens, ParseColumnType, ParseKeyType;
      var rest := text;
      while rest != []
        invariant Valid()
        invariant old(columns) + ReadText(text).columns == columns + ReadText(rest).columns
        invariant ReadText(text).error == ReadText(rest).error
        decreases |rest|
      {
        var (line, next) := GetLine(rest);
        ghost var was := rest;
        rest := next;
        var trimmed := Trim(line);
        if trimmed.None? {
          return Some(TrimOverrun);
        }
        if trimmed.value == [] || trimmed.value[0] == '#' {
          continue;
        }
        var tokens := Split(trimmed.value, ':');
        if |tokens| != 4 {
          return Some(InvalidLine);
        }
        var size := Stoul(tokens[1]);
        if size.Err? {
          return Some(InvalidSize(size.error));
        }
        var columnType := ParseColumnType(tokens[2]);
        var keyType := ParseKeyType(tokens[3]);
        AddColumn(Column(tokens[0], size.value % 0x1_0000, columnType, keyType));
      }
      return None;
    }

    method Write() returns (text: string)
      ensures text == Printed(columns)
    {
      hide Numeral, ColumnTypeString, KeyTypeString, LineOf, Printed;
      text := "";
      PrintedFrom(columns, 0);
      for i := 0 to |columns|
        invariant text + Printed(columns[i..]) == Printed(columns)
      {
        var column := columns[i];
        PrintedFrom(columns, i);
        WrittenPiecewise(text, column, Printed(columns[i + 1..]));
        text := text + column.name + ":";
        text := text + (Numeral(column.size) + ":");
        text := text + (ColumnTypeString(column.columnType) + ":");
        text := text + KeyTypeString(column.keyType);
        text := text + "\n";
      }
      PrintedFrom(columns, |columns|);
      assert text + "" == text;
    }
  }

  lemma PrintedFrom(columns: seq<Column>, i: nat)
    requires i <= |columns|
    ensures columns[0..] == columns
    ensures i == |columns| ==> Printed(columns[i..]) == ""
    ensures i < |columns| ==> Printed(columns[i..]) == LineOf(columns[i]) + "\n" + Printed(columns[i + 1..])
  {
  }

  lemma WrittenPiecewise(text: string, column: Column, rest: string)
    ensures text + column.name + ":" + (Numeral(column.size) + ":") + (ColumnTypeString(column.columnType) + ":")
            + KeyTypeString(column.keyType) + "\n" + rest == text + (LineOf(column) + "\n" + rest)
  {
  }

  lemma AddedStart(columns: seq<Column>, column: Column, i: nat)
    requires i <= |columns|
    ensures Start(columns + [column], i) == Start(columns, i)
    ensures Start(columns + [column], |columns| + 1) == (Start(columns, |columns|) + column.size) % 0x1_0000
  {
    assert (columns + [column])[..i] == columns[..i] && columns[..|columns|] == columns;
    assert (columns + [column])[..|columns| + 1] == columns + [column];
    assert (columns + [column])[..|columns|] == columns;
  }

  lemma AddedOffsets(columns: seq<Column>, column: Column, offset: map<string, uint16>)
    requires OffsetsLaid(columns, offset)
    ensures OffsetsLaid(columns + [column], offset[column.name := Start(columns, |columns|)])
  {
    hide Start;
    var now, placed := columns + [column], offset[column.name := Start(columns, |columns|)];
    forall i | LastNamed(now, i) ensures now[i].name in placed && placed[now[i].name] == Start(now, i) {
      AddedStart(columns, column, if i < |columns| then i else |columns|);
      if i < |columns| {
        assert now[|columns|].name != now[i].name;
        assert LastNamed(columns, i) by {
          assert forall j :: i < j < |columns| ==> columns[j] == now[j];
        }
      }
    }
    forall name | name in placed ensures exists i :: LastNamed(now, i) && now[i].name == name {
      if name == column.name {
        assert LastNamed(now, |columns|);
      } else {
        var i :| LastNamed(columns, i) && columns[i].name == name;
        assert LastNamed(now, i);
      }
    }
  }

  lemma AddedPrimary(columns: seq<Column>, column: Column, primaryOffset: uint16, primarySize: uint16)
    requires PrimaryLaid(columns, primaryOffset, primarySize)
    ensures column.keyType.Primary? ==> PrimaryLaid(columns + [column], Start(columns, |columns|), column.size)
    ensures !column.keyType.Primary? ==> PrimaryLaid(columns + [column], primaryOffset, primarySize)
  {
    hide Start;
    var now := columns + [column];
    AddedStart(columns, column, |columns|);
    if column.keyType.Primary? {
      assert now[|columns|].keyType.Primary?;
      assert forall i :: LastPrimary(now, i) ==> i == |columns|;
    } else {
      forall i | LastPrimary(now, i)
        ensures primaryOffset == Start(now, i) && primarySize == now[i].size
      {
        AddedStart(columns, column, i);
        assert forall j :: i < j < |columns| ==> columns[j] == now[j];
        assert LastPrimary(columns, i);
      }
      if forall i :: 0 <= i < |now| ==> !now[i].keyType.Primary? {
        assert forall i :: 0 <= i < |columns| ==> columns[i] == now[i];
      }
    }
  }

  lemma AddedSizes(columns: seq<Column>, column: Column)
    ensures SizesFixed(columns + [column]) <==> SizesFixed(columns) && column.size != 0
    ensures KeySizesFixed(columns + [column]) <==>
      KeySizesFixed(columns) && (column.size != 0 || column.keyType.NotKey?)
  {
    var now := columns + [column];
    assert now[|columns|] == column;
    assert forall i :: 0 <= i < |columns| ==> now[i] == columns[i];
  }

  lemma AddedLayout(columns: seq<Column>, column: Column, offset: map<string, uint16>,
                    primaryOffset: uint16, primarySize: uint16)
    requires OffsetsLaid(columns, offset) && PrimaryLaid(columns, primaryOffset, primarySize)
    ensures var now := columns + [column];
      && Start(now, |now|) == (Start(columns, |columns|) + column.size) % 0x1_0000
      && OffsetsLaid(now, offset[column.name := Start(columns, |columns|)])
      && (column.keyType.Primary? ==> PrimaryLaid(now, Start(columns, |columns|), column.size))
      && (!column.keyType.Primary? ==> PrimaryLaid(now, primaryOffset, primarySize))
      && (SizesFixed(now) <==> SizesFixed(columns) && column.size != 0)
      && (KeySizesFixed(now) <==> KeySizesFixed(columns) && (column.size != 0 || column.keyType.NotKey?))
  {
    hide OffsetsLaid, PrimaryLaid, SizesFixed, KeySizesFixed, Start;
    AddedStart(columns, column, |columns|);
    AddedOffsets(columns, column, offset);
    AddedPrimary(columns, column, primaryOffset, primarySize);
    AddedSizes(columns, column);
  }

  /**
   Writing a schema and reading it into a fresh one reproduces the columns and everything derived from them, exactly
   when a file can hold the names.
   */
  method WriteThenRead(schema: Schema) returns (copy: Schema, error: Option<SchemaError>)
    requires schema.Valid()
    ensures error.None? && copy.Contents() == schema.Contents() <==> GoodNames(schema.columns)
  {
    hide LaidOut, Printed, ReadText, GoodNames;
    var text := schema.Write();
    copy := new Schema();
    error := copy.Read(text);
    assert copy.columns == ReadText(text).columns;
    PrintReadRoundTrip(schema.columns);
    if copy.columns == schema.columns {
      LayoutUnique(copy.Contents(), schema.Contents());
    }
  }
}
