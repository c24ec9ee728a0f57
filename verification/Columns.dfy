/** Columns, and the names of their types in a schema file. */
module Columns {
  import opened Wrappers
  import opened StringUtils

  datatype ColumnType = Int32 | Int64 | Float | String | UnknownColumn

  datatype KeyType = NotKey | Primary | Secondary | UnknownKey

  datatype Column = Column(name: string, size: uint16, columnType: ColumnType, keyType: KeyType)

  function ColumnTypeString(columnType: ColumnType): string {
    match columnType
    case Int32 => "INT32"
    case Int64 => "INT64"
    case Float => "FLOAT"
    case String => "STRING"
    case UnknownColumn => "UNKNOWN"
  }

  function ParseColumnType(s: string): ColumnType {
    var upper := Upper(s);
    if upper == "INT32" then Int32
    else if upper == "INT64" then Int64
    else if upper == "FLOAT" then Float
    else if upper == "STRING" then String
    else UnknownColumn
  }

  function KeyTypeString(keyType: KeyType): string {
    match keyType
    case NotKey => "NONE"
    case Primary => "PRIMARY"
    case Secondary => "SECONDARY"
    case UnknownKey => "UNKNOWN"
  }

  function ParseKeyType(s: string): KeyType {
    var upper := Upper(s);
    if upper == "NONE" then NotKey
    else if upper == "PRIMARY" then Primary
    else if upper == "SECONDARY" then Secondary
    else UnknownKey
  }

  predicate UpperLetters(s: string) {
    forall i :: 0 <= i < |s| ==> 'A' <= s[i] <= 'Z' || IsDigit(s[i])
  }

  /** A string of capitals and digits, as both printers give, holds nothing a line is split or trimmed at. */
  lemma TypeStringsPlain(columnType: ColumnType, keyType: KeyType)
    ensures UpperLetters(ColumnTypeString(columnType)) && UpperLetters(KeyTypeString(keyType))
    ensures KeyTypeString(keyType) != []
  {
  }

  /** s is t up to the case of its letters. */
  predicate Spells(s: string, t: string) {
    |s| == |t| && forall i :: 0 <= i < |s| ==> s[i] == t[i] || ('a' <= s[i] <= 'z' && s[i] as int == t[i] as int + 32)
  }

  lemma UpperSpells(s: string, t: string)
    requires UpperLetters(t)
    ensures Upper(s) == t <==> Spells(s, t)
  {
    if Upper(s) == t {
      assert forall i :: 0 <= i < |s| ==> t[i] == UpperChar(s[i]);
    }
    if Spells(s, t) {
      assert forall i :: 0 <= i < |s| ==> Upper(s)[i] == t[i];
    }
  }

  /** The names of the column types, and what each string is read as. */
  lemma ColumnTypeNames(s: string)
    ensures ColumnTypeString(Int32) == "INT32" && ColumnTypeString(Int64) == "INT64"
    ensures ColumnTypeString(Float) == "FLOAT" && ColumnTypeString(String) == "STRING"
    ensures ColumnTypeString(UnknownColumn) == "UNKNOWN"
    ensures ParseColumnType(s) == Int32 <==> Spells(s, "INT32")
    ensures ParseColumnType(s) == Int64 <==> Spells(s, "INT64")
    ensures ParseColumnType(s) == Float <==> Spells(s, "FLOAT")
    ensures ParseColumnType(s) == String <==> Spells(s, "STRING")
  {
    UpperSpells(s, "INT32");
    UpperSpells(s, "INT64");
    UpperSpells(s, "FLOAT");
    UpperSpells(s, "STRING");
    assert "INT32"[3] != "INT64"[3] && "FLOAT"[0] != "INT32"[0];
  }

  lemma KeyTypeNames(s: string)
    ensures KeyTypeString(NotKey) == "NONE" && KeyTypeString(Primary) == "PRIMARY"
    ensures KeyTypeString(Secondary) == "SECONDARY" && KeyTypeString(UnknownKey) == "UNKNOWN"
    ensures ParseKeyType(s) == NotKey <==> Spells(s, "NONE")
    ensures ParseKeyType(s) == Primary <==> Spells(s, "PRIMARY")
    ensures ParseKeyType(s) == Secondary <==> Spells(s, "SECONDARY")
  {
    UpperSpells(s, "NONE");
    UpperSpells(s, "PRIMARY");
    UpperSpells(s, "SECONDARY");
  }

  /** Each type is read back from its string, however the string is capitalised. */
  lemma ColumnTypeRoundTrip(columnType: ColumnType, s: string)
    requires Upper(s) == ColumnTypeString(columnType)
    ensures ParseColumnType(s) == columnType
  {
    assert "INT32"[3] != "INT64"[3] && "FLOAT"[0] != "INT32"[0];
  }

  lemma KeyTypeRoundTrip(keyType: KeyType, s: string)
    requires Upper(s) == KeyTypeString(keyType)
    ensures ParseKeyType(s) == keyType
  {
    assert "PRIMARY"[0] != "UNKNOWN"[0];
  }

  lemma UpperPlain(s: string)
    requires UpperLetters(s)
    ensures Upper(s) == s
  {
    assert forall i :: 0 <= i < |s| ==> UpperChar(s[i]) == s[i];
  }
}
