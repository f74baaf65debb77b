/** Building the DDL text for a table from its column names and pandas dtype names: the type
    mapping and the CREATE TABLE / CREATE EXTERNAL TABLE statements. */
module Ddl {

  /** A column of the table: its name and the text of its dtype (as `str(dtype)` gives it). */
  datatype Column = Column(name: string, dtype: string)

  /** Lower-cases the ASCII letters A-Z and leaves every other character alone. */
  function Lower(s: string): (r: string)
  {
    seq(|s|, i requires 0 <= i < |s| => LowerChar(s[i]))
  }

  function LowerChar(c: char): char
  {
    if 'A' <= c <= 'Z' then (c as int + 32) as char else c
  }

  function UpperChar(c: char): char
  {
    if 'a' <= c <= 'z' then (c as int - 32) as char else c
  }

  function Upper(s: string): (r: string)
  {
    seq(|s|, i requires 0 <= i < |s| => UpperChar(s[i]))
  }

  predicate NoUpper(s: string)
  {
    forall i :: 0 <= i < |s| ==> !('A' <= s[i] <= 'Z')
  }

  /** Lower-casing leaves a text without capitals as it is. */
  lemma LowerUnchanged(s: string)
    requires NoUpper(s)
    ensures Lower(s) == s
  {
  }

  /** `t` matches `s` from position `k` on, comparing from character `j` of `t`. */
  function MatchAt(s: string, t: string, k: nat, j: nat): bool
    decreases |t| - j
  {
    j >= |t| || (k + j < |s| && s[k + j] == t[j] && MatchAt(s, t, k, j + 1))
  }

  /** `t` occurs in `s` at some position `k` or later. */
  function ContainsFrom(s: string, t: string, k: nat): bool
    decreases |s| - k
  {
    k + |t| <= |s| && (MatchAt(s, t, k, 0) || ContainsFrom(s, t, k + 1))
  }

  /** Python's `t in s` on strings. */
  function Contains(s: string, t: string): bool
  {
    ContainsFrom(s, t, 0)
  }

  predicate OccursAt(s: string, t: string, i: int)
  {
    0 <= i && i + |t| <= |s| && s[i..i + |t|] == t
  }

  /** `t` is a contiguous piece of `s`. */
  ghost predicate Has(s: string, t: string)
  {
    exists i :: OccursAt(s, t, i)
  }

  lemma {:induction false} MatchAtIff(s: string, t: string, k: nat, j: nat)
    requires k + |t| <= |s| && j <= |t|
    ensures MatchAt(s, t, k, j) <==> forall m :: j <= m < |t| ==> s[k + m] == t[m]
    decreases |t| - j
  {
    if j < |t| {
      MatchAtIff(s, t, k, j + 1);
    }
  }

  lemma {:induction false} ContainsFromIff(s: string, t: string, k: nat)
    ensures ContainsFrom(s, t, k) <==> exists i :: k <= i && OccursAt(s, t, i)
    decreases |s| - k
  {
    if k + |t| <= |s| {
      MatchAtIff(s, t, k, 0);
      ContainsFromIff(s, t, k + 1);
      if MatchAt(s, t, k, 0) {
        assert s[k..k + |t|] == t;
        assert OccursAt(s, t, k);
      }
      if OccursAt(s, t, k) {
        forall m | 0 <= m < |t| ensures s[k + m] == t[m] {
          assert s[k..k + |t|][m] == s[k + m];
        }
      }
      forall i | k <= i && OccursAt(s, t, i) ensures i == k || k + 1 <= i {
      }
    }
  }

  /** The definition agrees with "t occurs somewhere in s". */
  lemma ContainsIffHas(s: string, t: string)
    ensures Contains(s, t) <==> Has(s, t)
  {
    ContainsFromIff(s, t, 0);
  }

  /** The column type for a dtype, tested in order on the lower-cased dtype text. */
  function InferSqlType(dtype: string): (t: string)
    ensures t in {"INT", "FLOAT", "DATE", "VARCHAR(255)"}
  {
    var d := Lower(dtype);
    if Contains(d, "int") then "INT"
    else if Contains(d, "float") || Contains(d, "double") then "FLOAT"
    else if Contains(d, "datetime") then "DATE"
    else "VARCHAR(255)"
  }

  /** Each type is chosen exactly when its word occurs (in any letter case) and no earlier
      word does. */
  lemma InferSqlTypeCases(dtype: string)
    ensures var d := Lower(dtype);
            (InferSqlType(dtype) == "INT" <==> Has(d, "int")) &&
            (InferSqlType(dtype) == "FLOAT" <==> !Has(d, "int") && (Has(d, "float") || Has(d, "double"))) &&
            (InferSqlType(dtype) == "DATE" <==>
               !Has(d, "int") && !Has(d, "float") && !Has(d, "double") && Has(d, "datetime")) &&
            (InferSqlType(dtype) == "VARCHAR(255)" <==>
               !Has(d, "int") && !Has(d, "float") && !Has(d, "double") && !Has(d, "datetime"))
  {
    var d := Lower(dtype);
    ContainsIffHas(d, "int");
    ContainsIffHas(d, "float");
    ContainsIffHas(d, "double");
    ContainsIffHas(d, "datetime");
  }

  lemma LowerOfUpper(s: string)
    ensures Lower(Upper(s)) == Lower(s)
  {
  }

  /** The mapping ignores letter case: "INT64" and "int64" give the same type. */
  lemma InferSqlTypeIgnoresCase(dtype: string)
    ensures InferSqlType(Upper(dtype)) == InferSqlType(dtype)
  {
    LowerOfUpper(dtype);
  }

  lemma IntExamples()
    ensures InferSqlType("int64") == "INT"
    ensures InferSqlType("Int32") == "INT"
    ensures InferSqlType("uint8") == "INT"
  {
    LowerUnchanged("int64");
    LowerUnchanged("uint8");
    assert Lower("Int32") == "int32";
  }

  lemma FloatExample()
    ensures InferSqlType("float64") == "FLOAT"
  {
    LowerUnchanged("float64");
    assert !ContainsFrom("float64", "int", 2);
  }

  lemma DatetimeExample()
    ensures InferSqlType("datetime64[ns]") == "DATE"
  {
    var d := "datetime64[ns]";
    LowerUnchanged(d);
    assert !ContainsFrom(d, "int", 8) && !ContainsFrom(d, "int", 4);
    assert !ContainsFrom(d, "float", 6) && !ContainsFrom(d, "float", 2);
    assert !ContainsFrom(d, "double", 6) && !ContainsFrom(d, "double", 2);
  }

  lemma ObjectExample()
    ensures InferSqlType("object") == "VARCHAR(255)"
  {
    LowerUnchanged("object");
    assert !ContainsFrom("object", "int", 2);
  }

  /** The name of an interval dtype starts with "interval", which contains "int"; since that
      test comes first, an interval of floats is INT and not FLOAT. */
  lemma IntervalDtypeIsInt()
    ensures InferSqlType("interval[float64, right]") == "INT"
  {
    var d := Lower("interval[float64, right]");
    assert d[0] == 'i' && d[1] == 'n' && d[2] == 't';
    assert MatchAt(d, "int", 0, 0);
  }

  // ---------------------------------------------------------------------------
  // Joining with a separator

  /** `sep.join(parts)`. */
  function Join(sep: string, parts: seq<string>): string
  {
    if |parts| == 0 then ""
    else if |parts| == 1 then parts[0]
    else Join(sep, parts[..|parts| - 1]) + sep + parts[|parts| - 1]
  }

  /** Where part `i` starts in the joined text. */
  function Offset(sepLen: nat, parts: seq<string>, i: nat): nat
    requires i <= |parts|
  {
    if i == 0 then 0 else Offset(sepLen, parts, i - 1) + |parts[i - 1]| + sepLen
  }

  lemma {:induction false} OffsetPrefix(sepLen: nat, parts: seq<string>, m: nat, i: nat)
    requires i <= m <= |parts|
    ensures Offset(sepLen, parts[..m], i) == Offset(sepLen, parts, i)
  {
    if i > 0 {
      OffsetPrefix(sepLen, parts, m, i - 1);
      assert parts[..m][i - 1] == parts[i - 1];
    }
  }

  lemma {:induction false} JoinLength(sep: string, parts: seq<string>)
    requires |parts| > 0
    ensures |Join(sep, parts)| + |sep| == Offset(|sep|, parts, |parts|)
  {
    if |parts| > 1 {
      var m := |parts| - 1;
      JoinLength(sep, parts[..m]);
      OffsetPrefix(|sep|, parts, m, m);
    }
  }

  lemma SliceLeft(a: string, b: string, x: nat, y: nat)
    requires x <= y <= |a|
    ensures (a + b)[x..y] == a[x..y]
  {
  }

  lemma SliceRight(a: string, b: string, x: nat, y: nat)
    requires x <= y <= |b|
    ensures (a + b)[|a| + x..|a| + y] == b[x..y]
  {
  }

  /** Part `i` stands at its offset in the joined text. */
  lemma {:induction false} JoinPartAt(sep: string, parts: seq<string>, i: nat)
    requires i < |parts|
    ensures Offset(|sep|, parts, i) + |parts[i]| <= |Join(sep, parts)|
    ensures var o := Offset(|sep|, parts, i);
            Join(sep, parts)[o..o + |parts[i]|] == parts[i]
  {
    var m := |parts| - 1;
    if m > 0 {
      var J0 := Join(sep, parts[..m]);
      assert Join(sep, parts) == J0 + (sep + parts[m]);
      JoinLength(sep, parts[..m]);
      OffsetPrefix(|sep|, parts, m, m);
      if i < m {
        JoinPartAt(sep, parts[..m], i);
        OffsetPrefix(|sep|, parts, m, i);
        var o := Offset(|sep|, parts, i);
        SliceLeft(J0, sep + parts[m], o, o + |parts[i]|);
      } else {
        SliceRight(J0 + sep, parts[m], 0, |parts[m]|);
        assert J0 + (sep + parts[m]) == (J0 + sep) + parts[m];
      }
    }
  }

  /** The separator follows every part but the last. */
  lemma {:induction false} JoinSepAfter(sep: string, parts: seq<string>, i: nat)
    requires i + 1 < |parts|
    ensures Offset(|sep|, parts, i) + |parts[i]| + |sep| <= |Join(sep, parts)|
    ensures var p := Offset(|sep|, parts, i) + |parts[i]|;
            Join(sep, parts)[p..p + |sep|] == sep
  {
    var m := |parts| - 1;
    var J0 := Join(sep, parts[..m]);
    assert Join(sep, parts) == J0 + (sep + parts[m]);
    JoinLength(sep, parts[..m]);
    OffsetPrefix(|sep|, parts, m, m);
    OffsetPrefix(|sep|, parts, m, i);
    var p := Offset(|sep|, parts, i) + |parts[i]|;
    if i + 1 < m {
      JoinSepAfter(sep, parts[..m], i);
      SliceLeft(J0, sep + parts[m], p, p + |sep|);
    } else {
      OffsetPrefix(|sep|, parts, m, i + 1);
      SliceRight(J0, sep + parts[m], 0, |sep|);
    }
  }

  // ---------------------------------------------------------------------------
  // The statements

  /** `f"{col} {col_type}"`. */
  function ColumnDef(c: Column): string
  {
    c.name + " " + InferSqlType(c.dtype)
  }

  /** A definition starts with the column's own name, then one space, then one of the four
      types. */
  lemma ColumnDefShape(c: Column)
    ensures var d := ColumnDef(c);
            |c.name| < |d| && d[..|c.name|] == c.name && d[|c.name|] == ' ' &&
            d[|c.name| + 1..] in {"INT", "FLOAT", "DATE", "VARCHAR(255)"}
  {
    var d := ColumnDef(c);
    assert d == c.name + (" " + InferSqlType(c.dtype));
  }

  function Defs(columns: seq<Column>): (d: seq<string>)
    ensures |d| == |columns|
  {
    seq(|columns|, i requires 0 <= i < |columns| => ColumnDef(columns[i]))
  }

  /** The loop that builds one column definition per column, in column order. */
  method ColumnDefs(columns: seq<Column>) returns (defs: seq<string>)
    ensures defs == Defs(columns)
  {
    defs := [];
    for i := 0 to |columns|
      invariant defs == Defs(columns[..i])
    {
      assert Defs(columns[..i + 1]) == Defs(columns[..i]) + [ColumnDef(columns[i])];
      defs := defs + [ColumnDef(columns[i])];
    }
    assert columns[..|columns|] == columns;
  }

  const ColumnSep := ",\n  "

  function CreateTableHead(tableName: string): string
  {
    "CREATE TABLE " + tableName + " (\n  "
  }

  /** The statement over the column definitions `defs`: the head naming the table, the
      definitions joined by ",\n  ", and the closing parenthesis. */
  function CreateTableSql(defs: seq<string>, tableName: string): string
  {
    CreateTableHead(tableName) + Join(ColumnSep, defs) + "\n)"
  }

  function ExtTableHead(tableName: string): string
  {
    "\n    CREATE EXTERNAL TABLE " + tableName + "_EXT (\n        "
  }

  function ExtTableTail(filePath: string): string
  {
    "\n    )\n    USING (\n        DATAOBJECT ('" + filePath + "')\n        DELIMITER ','\n        SKIPROWS 1\n        REMOTESOURCE 'ODBC'\n    )\n    "
  }

  /** The external-table statement over the column definitions `defs`: the head naming
      "<table>_EXT", the definitions, and the USING clause reading `filePath` as
      comma-delimited text with one header row. */
  function CreateExtTableSql(defs: seq<string>, tableName: string, filePath: string): string
  {
    ExtTableHead(tableName) + Join(ColumnSep, defs) + ExtTableTail(filePath)
  }

  method GenerateCreateTableSql(columns: seq<Column>, tableName: string) returns (stmt: string)
    ensures stmt == CreateTableSql(Defs(columns), tableName)
  {
    var colsDefs := ColumnDefs(columns);
    var colsStr := Join(ColumnSep, colsDefs);
    stmt := "CREATE TABLE " + tableName + " (\n  " + colsStr + "\n)";
  }

  method GenerateCreateExtTableSql(columns: seq<Column>, tableName: string, filePath: string)
    returns (stmt: string)
    ensures stmt == CreateExtTableSql(Defs(columns), tableName, filePath)
  {
    var colsDefs := ColumnDefs(columns);
    var colsStr := Join(ColumnSep, colsDefs);
    stmt := "\n    CREATE EXTERNAL TABLE " + tableName + "_EXT (\n        " + colsStr +
            "\n    )\n    USING (\n        DATAOBJECT ('" + filePath +
            "')\n        DELIMITER ','\n        SKIPROWS 1\n        REMOTESOURCE 'ODBC'\n    )\n    ";
  }

  /** A head, a middle and a tail: the text starts with the head and ends with the tail. */
  lemma Framed(h: string, j: string, t: string)
    ensures h <= h + j + t
    ensures (h + j + t)[|h + j|..] == t
  {
  }

  /** The CREATE TABLE statement opens with "CREATE TABLE <name> (" and a new line, and closes
      with a new line and ")". */
  lemma CreateTableFrame(defs: seq<string>, tableName: string)
    ensures CreateTableHead(tableName) <= CreateTableSql(defs, tableName)
    ensures var s := CreateTableSql(defs, tableName); |s| >= 2 && s[|s| - 2..] == "\n)"
  {
    Framed(CreateTableHead(tableName), Join(ColumnSep, defs), "\n)");
  }

  /** The external-table statement opens with the head naming "<name>_EXT" and closes with the
      USING clause that reads `filePath` as comma-delimited text, skipping one header row. */
  lemma ExtTableFrame(defs: seq<string>, tableName: string, filePath: string)
    ensures ExtTableHead(tableName) <= CreateExtTableSql(defs, tableName, filePath)
    ensures var s := CreateExtTableSql(defs, tableName, filePath);
            var t := ExtTableTail(filePath);
            |s| >= |t| && s[|s| - |t|..] == t
  {
    Framed(ExtTableHead(tableName), Join(ColumnSep, defs), ExtTableTail(filePath));
  }

  lemma SliceOfMiddle(a: string, b: string, c: string, x: nat, y: nat, piece: string)
    requires x <= y <= |b| && b[x..y] == piece
    ensures |a| + y <= |a + b + c| && (a + b + c)[|a| + x..|a| + y] == piece
  {
    assert (a + b + c)[|a| + x..|a| + y] == b[x..y];
  }

  /** A part of a joined list, framed by a head and a tail, stands at its offset. */
  lemma FramedPartAt(h: string, sep: string, parts: seq<string>, t: string, i: nat)
    requires i < |parts|
    ensures var o := |h| + Offset(|sep|, parts, i);
            o + |parts[i]| <= |h + Join(sep, parts) + t| &&
            (h + Join(sep, parts) + t)[o..o + |parts[i]|] == parts[i]
  {
    JoinPartAt(sep, parts, i);
    var o := Offset(|sep|, parts, i);
    SliceOfMiddle(h, Join(sep, parts), t, o, o + |parts[i]|, parts[i]);
  }

  /** ... and the separator follows it unless it is the last part. */
  lemma FramedSepAfter(h: string, sep: string, parts: seq<string>, t: string, i: nat)
    requires i + 1 < |parts|
    ensures var p := |h| + Offset(|sep|, parts, i) + |parts[i]|;
            p + |sep| <= |h + Join(sep, parts) + t| &&
            (h + Join(sep, parts) + t)[p..p + |sep|] == sep
  {
    var J := Join(sep, parts);
    var p := Offset(|sep|, parts, i) + |parts[i]|;
    JoinSepAfter(sep, parts, i);
    assert J[p..p + |sep|] == sep;
    SliceOfMiddle(h, J, t, p, p + |sep|, sep);
  }

  /** Column definition `i` appears in the CREATE TABLE statement at its place in column order. */
  lemma CreateTableColumnAt(defs: seq<string>, tableName: string, i: nat)
    requires i < |defs|
    ensures var s := CreateTableSql(defs, tableName);
            var o := |CreateTableHead(tableName)| + Offset(|ColumnSep|, defs, i);
            o + |defs[i]| <= |s| && s[o..o + |defs[i]|] == defs[i]
  {
    FramedPartAt(CreateTableHead(tableName), ColumnSep, defs, "\n)", i);
  }

  /** ... followed by ",\n  " unless it is the last column. */
  lemma CreateTableSeparatorAfter(defs: seq<string>, tableName: string, i: nat)
    requires i + 1 < |defs|
    ensures var s := CreateTableSql(defs, tableName);
            var p := |CreateTableHead(tableName)| + Offset(|ColumnSep|, defs, i) + |defs[i]|;
            p + |ColumnSep| <= |s| && s[p..p + |ColumnSep|] == ColumnSep
  {
    FramedSepAfter(CreateTableHead(tableName), ColumnSep, defs, "\n)", i);
  }

  /** Column definition `i` appears the same way in the CREATE EXTERNAL TABLE statement. */
  lemma ExtTableColumnAt(defs: seq<string>, tableName: string, filePath: string, i: nat)
    requires i < |defs|
    ensures var s := CreateExtTableSql(defs, tableName, filePath);
            var o := |ExtTableHead(tableName)| + Offset(|ColumnSep|, defs, i);
            o + |defs[i]| <= |s| && s[o..o + |defs[i]|] == defs[i]
  {
    FramedPartAt(ExtTableHead(tableName), ColumnSep, defs, ExtTableTail(filePath), i);
  }

  /** ... and is followed there by ",\n  " unless it is the last column. */
  lemma ExtTableSeparatorAfter(defs: seq<string>, tableName: string, filePath: string, i: nat)
    requires i + 1 < |defs|
    ensures var s := CreateExtTableSql(defs, tableName, filePath);
            var p := |ExtTableHead(tableName)| + Offset(|ColumnSep|, defs, i) + |defs[i]|;
            p + |ColumnSep| <= |s| && s[p..p + |ColumnSep|] == ColumnSep
  {
    FramedSepAfter(ExtTableHead(tableName), ColumnSep, defs, ExtTableTail(filePath), i);
  }
}
