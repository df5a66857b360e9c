/**
 * The text-to-records part of `loadCSV` in assignment2/script.js:
 * the text is split into lines, each line into comma-separated fields,
 * the header line is skipped, `x` and `y` are parsed as numbers, the
 * category is the trimmed third field, and lines whose `x` or `y` is not
 * a number are dropped.
 */
module Csv {
  import opened Wrappers

  /** A kept record. `category` is `None` when the line has no third field. */
  datatype Point = Point(x: real, y: real, category: Option<string>)

  // ---------------------------------------------------------------------
  // String.prototype.split with a one-character separator, and its inverse
  // ---------------------------------------------------------------------

  /** Joins the pieces back together with `sep` between neighbours. */
  function Join(parts: seq<string>, sep: char): string
    requires |parts| >= 1
  {
    if |parts| == 1 then parts[0] else parts[0] + [sep] + Join(parts[1..], sep)
  }

  /** `s.split(sep)`: always at least one piece, no piece holds `sep`. */
  function Split(s: string, sep: char): (parts: seq<string>)
    ensures |parts| >= 1
    ensures forall i :: 0 <= i < |parts| ==> sep !in parts[i]
    ensures Join(parts, sep) == s
  {
    if s == [] then [[]]
    else
      var rest := Split(s[1..], sep);
      if s[0] == sep then
        assert ([[]] + rest)[1..] == rest;
        [[]] + rest
      else
        var parts := [[s[0]] + rest[0]] + rest[1..];
        assert parts[1..] == rest[1..];
        assert s == [s[0]] + s[1..];
        parts
  }

  lemma {:induction false} SplitPrefix(a: string, t: string, sep: char)
    requires sep !in a
    ensures Split(a + t, sep) == [a + Split(t, sep)[0]] + Split(t, sep)[1..]
    decreases |a|
  {
    if a != [] {
      assert (a + t)[1..] == a[1..] + t;
      assert (a + t)[0] == a[0];
      SplitPrefix(a[1..], t, sep);
      assert [a[0]] + (a[1..] + Split(t, sep)[0]) == a + Split(t, sep)[0];
    } else {
      var parts := Split(t, sep);
      assert a + t == t;
      assert a + parts[0] == parts[0];
      assert parts == [parts[0]] + parts[1..];
    }
  }

  /** Splitting a joined list of separator-free pieces gives the pieces back. */
  lemma {:induction false} SplitJoin(parts: seq<string>, sep: char)
    requires |parts| >= 1
    requires forall i :: 0 <= i < |parts| ==> sep !in parts[i]
    ensures Split(Join(parts, sep), sep) == parts
    decreases |parts|
  {
    if |parts| == 1 {
      SplitPrefix(parts[0], [], sep);
      assert parts[0] + [] == parts[0];
    } else {
      var tail := Join(parts[1..], sep);
      SplitJoin(parts[1..], sep);
      assert Split([sep] + tail, sep) == [[]] + Split(tail, sep) by {
        assert ([sep] + tail)[1..] == tail;
      }
      assert Join(parts, sep) == parts[0] + ([sep] + tail);
      SplitPrefix(parts[0], [sep] + tail, sep);
      assert parts[0] + [] == parts[0];
      assert parts == [parts[0]] + parts[1..];
    }
  }

  // ---------------------------------------------------------------------
  // String.prototype.trim
  // ---------------------------------------------------------------------

  /** The characters ECMAScript counts as white space or line terminators. */
  predicate IsSpace(c: char)
  {
    c == ' ' || c == '\t' || c == '\n' || c == '\r' ||
    c as int == 0x0B || c as int == 0x0C || c as int == 0xA0 || c as int == 0xFEFF ||
    c as int == 0x1680 || (0x2000 <= c as int <= 0x200A) ||
    c as int == 0x2028 || c as int == 0x2029 || c as int == 0x202F ||
    c as int == 0x205F || c as int == 0x3000
  }

  /** Removes the leading white space: the result is the suffix after it. */
  function TrimStart(s: string): (r: string)
    ensures |r| <= |s| && r == s[|s| - |r|..]
    ensures forall i :: 0 <= i < |s| - |r| ==> IsSpace(s[i])
    ensures r == [] || !IsSpace(r[0])
  {
    if s != [] && IsSpace(s[0]) then TrimStart(s[1..]) else s
  }

  /** Removes the trailing white space: the result is the prefix before it. */
  function TrimEnd(s: string): (r: string)
    ensures |r| <= |s| && r == s[..|r|]
    ensures forall i :: |r| <= i < |s| ==> IsSpace(s[i])
    ensures r == [] || !IsSpace(r[|r| - 1])
  {
    if s != [] && IsSpace(s[|s| - 1]) then TrimEnd(s[..|s| - 1]) else s
  }

  /** `s.trim()`: neither starts nor ends with white space. */
  function Trim(s: string): (r: string)
    ensures |r| <= |s|
    ensures r == [] || (!IsSpace(r[0]) && !IsSpace(r[|r| - 1]))
  {
    var t := TrimStart(s);
    var r := TrimEnd(t);
    assert r != [] ==> r[0] == t[0];
    r
  }

  /** The length of the leading white space of `s`. */
  function Lead(s: string): nat
  {
    |s| - |TrimStart(s)|
  }

  /**
   * What `trim` removes: the trimmed string is the infix of `s` that starts
   * after the leading white space, and everything after it is white space.
   */
  lemma TrimInfix(s: string)
    ensures Lead(s) + |Trim(s)| <= |s|
    ensures Trim(s) == s[Lead(s)..Lead(s) + |Trim(s)|]
    ensures forall i :: 0 <= i < Lead(s) ==> IsSpace(s[i])
    ensures forall i :: Lead(s) + |Trim(s)| <= i < |s| ==> IsSpace(s[i])
  {
    InfixOfSuffix(s, Lead(s), TrimStart(s), Trim(s));
  }

  lemma InfixOfSuffix(s: string, lead: nat, t: string, r: string)
    requires lead <= |s| && t == s[lead..] && |r| <= |t| && r == t[..|r|]
    requires forall j :: |r| <= j < |t| ==> IsSpace(t[j])
    ensures lead + |r| <= |s| && r == s[lead..lead + |r|]
    ensures forall i :: lead + |r| <= i < |s| ==> IsSpace(s[i])
  {
    forall i | lead + |r| <= i < |s| ensures IsSpace(s[i]) {
      assert s[i] == t[i - lead];
    }
  }

  /** Trimming twice is trimming once. */
  lemma TrimIdempotent(s: string)
    ensures Trim(Trim(s)) == Trim(s)
  {
    var r := Trim(s);
    assert TrimStart(r) == r;
    assert TrimEnd(r) == r;
  }

  // ---------------------------------------------------------------------
  // Rows to records
  // ---------------------------------------------------------------------

  /** `row[i]`, which is `undefined` past the end of the row. */
  function Field(row: seq<string>, i: nat): Option<string>
  {
    if i < |row| then Some(row[i]) else None
  }

  /** `parseFloat(field)`; `parseFloat(undefined)` is `NaN`. */
  function Number(field: Option<string>, parse: string -> Option<real>): Option<real>
  {
    match field
    case None => None
    case Some(f) => parse(f)
  }

  /** `row[2]?.trim()`: absent exactly when the row has no third field. */
  function Category(row: seq<string>): (c: Option<string>)
    ensures c.Some? <==> |row| >= 3
    ensures c.Some? ==> |c.value| <= |row[2]| && (c.value == [] || !IsSpace(c.value[0]))
  {
    match Field(row, 2)
    case None => None
    case Some(f) => Some(Trim(f))
  }

  /** The record built from one row, or `None` when the filter drops it. */
  function RowPoint(row: seq<string>, parse: string -> Option<real>): Option<Point>
  {
    match (Number(Field(row, 0), parse), Number(Field(row, 1), parse))
    case (Some(x), Some(y)) => Some(Point(x, y, Category(row)))
    case _ => None
  }

  /** A row the filter keeps: both its first and second fields parse. */
  predicate Numeric(row: seq<string>, parse: string -> Option<real>)
  {
    |row| >= 2 && parse(row[0]).Some? && parse(row[1]).Some?
  }

  /** What a kept row decodes to: its parsed `x`, `y` and trimmed third field. */
  predicate Decodes(row: seq<string>, parse: string -> Option<real>, p: Point)
  {
    Numeric(row, parse) &&
    p.x == parse(row[0]).value && p.y == parse(row[1]).value &&
    p.category == (if |row| >= 3 then Some(Trim(row[2])) else None)
  }

  /** `rows.slice(from).map(...).filter(...)`: at most one record per row. */
  function KeepFrom(rows: seq<seq<string>>, from: nat, parse: string -> Option<real>): (ps: seq<Point>)
    ensures |ps| <= if from <= |rows| then |rows| - from else 0
    decreases |rows| - from
  {
    if from >= |rows| then []
    else
      match RowPoint(rows[from], parse)
      case Some(p) => [p] + KeepFrom(rows, from + 1, parse)
      case None => KeepFrom(rows, from + 1, parse)
  }

  /** The records of `rows`, header row skipped: fewer records than rows. */
  function ParseRows(rows: seq<seq<string>>, parse: string -> Option<real>): (ps: seq<Point>)
    ensures rows == [] || |ps| < |rows|
  {
    KeepFrom(rows, 1, parse)
  }

  /** The text cut into rows of fields. */
  function Rows(text: string): (rows: seq<seq<string>>)
    ensures |rows| >= 1
  {
    var lines := Split(text, '\n');
    seq(|lines|, i requires 0 <= i < |lines| => Split(lines[i], ','))
  }

  /**
   * The positions, in increasing order, of the rows from `from` on that
   * the filter keeps: an independent description of which rows survive.
   */
  function KeptIndices(rows: seq<seq<string>>, from: nat, parse: string -> Option<real>): (idx: seq<nat>)
    ensures forall k :: 0 <= k < |idx| ==> from <= idx[k] < |rows|
    ensures forall k, l :: 0 <= k < l < |idx| ==> idx[k] < idx[l]
    ensures forall j :: j in idx <==> from <= j < |rows| && Numeric(rows[j], parse)
    decreases |rows| - from
  {
    if from >= |rows| then []
    else if Numeric(rows[from], parse) then [from] + KeptIndices(rows, from + 1, parse)
    else KeptIndices(rows, from + 1, parse)
  }

  lemma RowPointDecodes(row: seq<string>, parse: string -> Option<real>)
    ensures RowPoint(row, parse).Some? <==> Numeric(row, parse)
    ensures RowPoint(row, parse).Some? ==> Decodes(row, parse, RowPoint(row, parse).value)
  {
  }

  lemma {:induction false} KeepFromIndices(rows: seq<seq<string>>, from: nat, parse: string -> Option<real>)
    ensures var ps := KeepFrom(rows, from, parse); var idx := KeptIndices(rows, from, parse);
      |ps| == |idx| && forall k :: 0 <= k < |ps| ==> Decodes(rows[idx[k]], parse, ps[k])
    decreases |rows| - from
  {
    if from < |rows| {
      KeepFromIndices(rows, from + 1, parse);
      RowPointDecodes(rows[from], parse);
    }
  }

  /**
   * Parsing skips exactly the header row, keeps the input order, and keeps
   * a row if and only if both its `x` and `y` parse: the k-th record is the
   * decoding of the k-th row (after the header) whose `x` and `y` parse.
   */
  lemma ParseRowsSpec(rows: seq<seq<string>>, parse: string -> Option<real>)
    ensures var ps := ParseRows(rows, parse); var idx := KeptIndices(rows, 1, parse);
      |ps| == |idx| &&
      (forall k :: 0 <= k < |ps| ==> Decodes(rows[idx[k]], parse, ps[k])) &&
      (forall k, l :: 0 <= k < l < |idx| ==> idx[k] < idx[l]) &&
      (forall j :: j in idx <==> 1 <= j < |rows| && Numeric(rows[j], parse))
  {
    KeepFromIndices(rows, 1, parse);
  }
}
