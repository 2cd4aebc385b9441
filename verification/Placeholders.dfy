/** The text of a multi-row VALUES list with its flat parameter list, as the dialects and the
    inbox repository print it, read back the way the database does. */
module Placeholders {
  import opened Common
  import opened Numerals

  datatype Dialect = PostgreSql | MySql

  function Placeholder(d: Dialect, index: nat): string {
    if d.PostgreSql? then "$" + Decimal(index) else "?"
  }

  /** JavaScript's join(", "). */
  function Join(parts: seq<string>): string {
    if parts == [] then ""
    else if |parts| == 1 then parts[0]
    else parts[0] + ", " + Join(parts[1..])
  }

  // Reading. A database numbers a bare '?' by its position in the statement.

  function DigitCount(s: string): (n: nat)
    ensures n <= |s| && forall i :: 0 <= i < n ==> IsDigit(s[i])
  {
    if s == "" || !IsDigit(s[0]) then 0 else 1 + DigitCount(s[1..])
  }

  function ReadPlaceholder(s: string, position: nat): (r: Option<(nat, string)>)
    ensures r.Some? ==> |r.value.1| < |s|
  {
    if s == "" then None
    else if s[0] == '?' then Some((position, s[1..]))
    else if s[0] != '$' || DigitCount(s[1..]) == 0 then None
    else
      var n := 1 + DigitCount(s[1..]);
      Some((ParseDecimal(s[1..n]), s[n..]))
  }

  /** One or more placeholders and a closing parenthesis. */
  function ReadItems(s: string, position: nat): (r: Option<(seq<nat>, string)>)
    ensures r.Some? ==> |r.value.1| < |s|
    decreases |s|
  {
    var item := ReadPlaceholder(s, position);
    if item.None? then None
    else
      var rest := item.value.1;
      if ")" <= rest then Some(([item.value.0], rest[1..]))
      else if ", " <= rest then
        var more := ReadItems(rest[2..], position + 1);
        if more.None? then None else Some(([item.value.0] + more.value.0, more.value.1))
      else None
  }

  function ReadRow(s: string, position: nat): (r: Option<(seq<nat>, string)>)
    ensures r.Some? ==> |r.value.1| < |s|
  {
    if "()" <= s then Some(([], s[2..]))
    else if "(" <= s then ReadItems(s[1..], position)
    else None
  }

  function ReadRows(s: string, position: nat): Option<seq<seq<nat>>>
    decreases |s|
  {
    if s == "" then Some([])
    else
      var row := ReadRow(s, position);
      if row.None? then None
      else if row.value.1 == "" then Some([row.value.0])
      else if ", " <= row.value.1 then
        var more := ReadRows(row.value.1[2..], position + |row.value.0|);
        if more.None? then None else Some([row.value.0] + more.value)
      else None
  }

  ghost predicate InRange(numbers: seq<seq<nat>>, count: nat) {
    forall r, c :: 0 <= r < |numbers| && 0 <= c < |numbers[r]| ==> 1 <= numbers[r][c] <= count
  }

  ghost function LookUpRow<V>(numbers: seq<nat>, params: seq<V>): seq<V>
    requires forall c :: 0 <= c < |numbers| ==> 1 <= numbers[c] <= |params|
  {
    seq(|numbers|, c requires 0 <= c < |numbers| => params[numbers[c] - 1])
  }

  /** The rows a statement inserts: None if its text is malformed or names a missing parameter. */
  ghost function Decode<V>(values: string, params: seq<V>): Option<seq<seq<V>>> {
    var numbers := ReadRows(values, 1);
    if numbers.None? || !InRange(numbers.value, |params|) then None
    else Some(seq(|numbers.value|, r requires 0 <= r < |numbers.value| => LookUpRow(numbers.value[r], params)))
  }

  // Printing.

  ghost function ItemList(d: Dialect, from: nat, width: nat): seq<string> {
    seq(width, c requires 0 <= c < width => Placeholder(d, from + c))
  }

  ghost function RowText(d: Dialect, from: nat, width: nat): string {
    "(" + Join(ItemList(d, from, width)) + ")"
  }

  /** The number of row r's first placeholder. */
  ghost function Start(from: nat, width: nat, r: nat): nat
    decreases r
  {
    if r == 0 then from else Start(from + width, width, r - 1)
  }

  lemma {:induction false} StartNext(from: nat, width: nat, r: nat)
    ensures Start(from, width, r + 1) == Start(from, width, r) + width
    ensures Start(from + 1, width, r) == Start(from, width, r) + 1
    decreases r
  {
    if r > 0 {
      StartNext(from + width, width, r - 1);
    }
  }

  lemma {:induction false} StartIsByRowAndWidth(from: nat, width: nat, r: nat)
    ensures Start(from, width, r) == from + r * width
    decreases r
  {
    if r > 0 {
      StartIsByRowAndWidth(from + width, width, r - 1);
      assert (r - 1) * width == r * width - width;
    }
  }

  ghost function RowList(d: Dialect, from: nat, width: nat, count: nat): seq<string> {
    seq(count, r requires 0 <= r < count => RowText(d, Start(from, width, r), width))
  }

  /** `count` rows of `width` placeholders, numbered from 1 throughout. */
  ghost function RowsText(d: Dialect, width: nat, count: nat): string {
    Join(RowList(d, 1, width, count))
  }

  ghost function Consecutive(from: nat, width: nat): seq<nat> {
    seq(width, c requires 0 <= c < width => from + c)
  }

  lemma {:induction false} DigitsEnd(digits: string, rest: string)
    requires forall i :: 0 <= i < |digits| ==> IsDigit(digits[i])
    requires rest == "" || !IsDigit(rest[0])
    ensures DigitCount(digits + rest) == |digits|
  {
    if digits != "" {
      assert (digits + rest)[1..] == digits[1..] + rest;
      DigitsEnd(digits[1..], rest);
    } else {
      assert digits + rest == rest;
    }
  }

  lemma NumberSlices(s: string, digits: string, rest: string)
    requires s == "$" + digits + rest
    ensures s != "" && s[0] == '$' && s[1..] == digits + rest
    ensures s[1..1 + |digits|] == digits && s[1 + |digits|..] == rest
  {
  }

  lemma {:induction false} NumberReadsBack(s: string, digits: string, rest: string, position: nat)
    requires digits != "" && forall i :: 0 <= i < |digits| ==> IsDigit(digits[i])
    requires (rest == "" || !IsDigit(rest[0])) && s == "$" + digits + rest
    ensures ReadPlaceholder(s, position) == Some((ParseDecimal(digits), rest))
  {
    NumberSlices(s, digits, rest);
    DigitsEnd(digits, rest);
  }

  lemma PlaceholderReadsBack(d: Dialect, index: nat, rest: string)
    requires rest == "" || !IsDigit(rest[0])
    ensures ReadPlaceholder(Placeholder(d, index) + rest, index) == Some((index, rest))
  {
    if d.PostgreSql? {
      NumberReadsBack("$" + Decimal(index) + rest, Decimal(index), rest, index);
      DecimalRoundTrip(index);
    } else {
      assert ("?" + rest)[1..] == rest;
    }
  }

  lemma LastItem(s: string, position: nat, n: nat, rest: string)
    requires ReadPlaceholder(s, position) == Some((n, ")" + rest))
    ensures ReadItems(s, position) == Some(([n], rest))
  {
  }

  lemma ItemBeforeOthers(s: string, position: nat, n: nat, after: string, others: seq<nat>, rest: string)
    requires ReadPlaceholder(s, position) == Some((n, ", " + after))
    requires ReadItems(after, position + 1) == Some((others, rest))
    ensures ReadItems(s, position) == Some(([n] + others, rest))
  {
    assert (", " + after)[2..] == after;
    assert (", " + after)[0] == ',';
  }

  lemma PlusAssociates(a: string, b: string, c: string)
    ensures a + b + c == a + (b + c)
  {
  }

  lemma Regroup(first: string, others: string, rest: string)
    ensures first + ", " + others + ")" + rest == first + (", " + (others + ")" + rest))
  {
  }

  /** The items of a row, its closing parenthesis, and what follows. */
  ghost function ItemsText(d: Dialect, from: nat, width: nat, rest: string): string {
    Join(ItemList(d, from, width)) + ")" + rest
  }

  lemma ItemsTextSplits(d: Dialect, from: nat, width: nat, rest: string)
    requires width > 0
    ensures ItemsText(d, from, width, rest) == Placeholder(d, from) +
      (if width == 1 then ")" + rest else ", " + ItemsText(d, from + 1, width - 1, rest))
  {
    if width > 1 {
      assert ItemList(d, from, width)[1..] == ItemList(d, from + 1, width - 1);
      Regroup(Placeholder(d, from), Join(ItemList(d, from + 1, width - 1)), rest);
    }
  }

  lemma CountUp(from: nat, width: nat)
    requires width > 0
    ensures Consecutive(from, width) == if width == 1 then [from] else [from] + Consecutive(from + 1, width - 1)
  {
  }

  lemma SingleItem(d: Dialect, from: nat, rest: string)
    ensures ReadItems(ItemsText(d, from, 1, rest), from) == Some(([from], rest))
  {
    ItemsTextSplits(d, from, 1, rest);
    PlaceholderReadsBack(d, from, ")" + rest);
    LastItem(ItemsText(d, from, 1, rest), from, from, rest);
  }

  lemma FirstItem(d: Dialect, from: nat, width: nat, rest: string, others: seq<nat>)
    requires width > 1
    requires ReadItems(ItemsText(d, from + 1, width - 1, rest), from + 1) == Some((others, rest))
    ensures ReadItems(ItemsText(d, from, width, rest), from) == Some(([from] + others, rest))
  {
    var after := ItemsText(d, from + 1, width - 1, rest);
    ItemsTextSplits(d, from, width, rest);
    PlaceholderReadsBack(d, from, ", " + after);
    ItemBeforeOthers(ItemsText(d, from, width, rest), from, from, after, others, rest);
  }

  lemma {:induction false} ItemsReadBack(d: Dialect, from: nat, width: nat, rest: string)
    requires width > 0
    ensures ReadItems(ItemsText(d, from, width, rest), from) == Some((Consecutive(from, width), rest))
    decreases width
  {
    CountUp(from, width);
    if width == 1 {
      SingleItem(d, from, rest);
    } else {
      ItemsReadBack(d, from + 1, width - 1, rest);
      FirstItem(d, from, width, rest, Consecutive(from + 1, width - 1));
    }
  }

  lemma RowReadsBack(d: Dialect, from: nat, width: nat, rest: string)
    ensures ReadRow(RowText(d, from, width) + rest, from) == Some((Consecutive(from, width), rest))
  {
    var s := RowText(d, from, width) + rest;
    if width == 0 {
      assert s == "()" + rest && s[2..] == rest;
      assert Consecutive(from, 0) == [];
    } else {
      ItemsReadBack(d, from, width, rest);
      assert s[1..] == ItemsText(d, from, width, rest);
      ItemsDoNotStartWithParenthesis(d, from, width);
      assert s[1] == Join(ItemList(d, from, width))[0];
    }
  }

  lemma ItemsDoNotStartWithParenthesis(d: Dialect, from: nat, width: nat)
    requires width > 0
    ensures Join(ItemList(d, from, width)) != "" && Join(ItemList(d, from, width))[0] != ')'
  {
    assert ItemList(d, from, width)[0] == Placeholder(d, from);
  }

  lemma LastRow(s: string, position: nat, row: seq<nat>)
    requires ReadRow(s, position) == Some((row, ""))
    ensures ReadRows(s, position) == Some([row])
  {
  }

  lemma RowBeforeOthers(s: string, position: nat, row: seq<nat>, after: string, others: seq<seq<nat>>)
    requires ReadRow(s, position) == Some((row, ", " + after))
    requires ReadRows(after, position + |row|) == Some(others)
    ensures ReadRows(s, position) == Some([row] + others)
  {
  }

  ghost function NumberGrid(from: nat, width: nat, count: nat): seq<seq<nat>> {
    seq(count, r requires 0 <= r < count => Consecutive(Start(from, width, r), width))
  }

  lemma SingleRow(d: Dialect, from: nat, width: nat)
    ensures ReadRows(Join(RowList(d, from, width, 1)), from) == Some([Consecutive(from, width)])
  {
    var s := Join(RowList(d, from, width, 1));
    RowReadsBack(d, from, width, "");
    assert s == RowText(d, from, width) + "";
    LastRow(s, from, Consecutive(from, width));
  }

  lemma FirstRow(d: Dialect, from: nat, width: nat, s: string, after: string, others: seq<seq<nat>>)
    requires s == RowText(d, from, width) + (", " + after)
    requires ReadRows(after, from + width) == Some(others)
    ensures ReadRows(s, from) == Some([Consecutive(from, width)] + others)
  {
    RowReadsBack(d, from, width, ", " + after);
    RowBeforeOthers(s, from, Consecutive(from, width), after, others);
  }

  lemma {:induction false} RowsReadBack(d: Dialect, from: nat, width: nat, count: nat)
    ensures ReadRows(Join(RowList(d, from, width, count)), from) == Some(NumberGrid(from, width, count))
    decreases count
  {
    GridTail(from, width, count);
    if count == 1 {
      SingleRow(d, from, width);
    } else if count > 1 {
      RowListTail(d, from, width, count);
      RowsReadBack(d, from + width, width, count - 1);
      FirstRow(d, from, width, Join(RowList(d, from, width, count)), Join(RowList(d, from + width, width, count - 1)),
        NumberGrid(from + width, width, count - 1));
    }
  }

  lemma GridTail(from: nat, width: nat, count: nat)
    ensures NumberGrid(from, width, count) ==
      if count == 0 then []
      else if count == 1 then [Consecutive(from, width)]
      else [Consecutive(from, width)] + NumberGrid(from + width, width, count - 1)
  {
  }

  lemma RowListTail(d: Dialect, from: nat, width: nat, count: nat)
    requires count > 1
    ensures Join(RowList(d, from, width, count))
      == RowText(d, from, width) + (", " + Join(RowList(d, from + width, width, count - 1)))
  {
    PlusAssociates(RowText(d, from, width), ", ", Join(RowList(d, from + width, width, count - 1)));
    assert RowList(d, from, width, count)[1..] == RowList(d, from + width, width, count - 1);
  }

  /** The parameters, row after row. */
  function Flatten<V>(rows: seq<seq<V>>): seq<V> {
    if rows == [] then [] else Flatten(rows[..|rows| - 1]) + rows[|rows| - 1]
  }

  ghost predicate EqualWidth<V>(rows: seq<seq<V>>, width: nat) {
    forall r :: 0 <= r < |rows| ==> |rows[r]| == width
  }

  lemma {:induction false} FlattenedAt<V>(rows: seq<seq<V>>, width: nat, r: nat)
    requires EqualWidth(rows, width) && r < |rows|
    ensures |Flatten(rows)| == Start(0, width, |rows|)
    ensures Start(0, width, r) + width <= |Flatten(rows)|
    ensures forall c :: 0 <= c < width ==> Flatten(rows)[Start(0, width, r) + c] == rows[r][c]
    decreases |rows|
  {
    var n := |rows| - 1;
    StartNext(0, width, n);
    if n > 0 {
      FlattenedAt(rows[..n], width, if r < n then r else 0);
    }
    assert Flatten(rows) == Flatten(rows[..n]) + rows[n];
  }

  lemma RowLooksUp<V>(rows: seq<seq<V>>, width: nat, r: nat)
    requires EqualWidth(rows, width) && r < |rows|
    ensures Start(1, width, r) + width <= |Flatten(rows)| + 1 && Start(1, width, r) >= 1
    ensures LookUpRow(Consecutive(Start(1, width, r), width), Flatten(rows)) == rows[r]
  {
    StartNext(0, width, r);
    FlattenedAt(rows, width, r);
  }

  lemma GridLooksUp<V>(rows: seq<seq<V>>, width: nat, numbers: seq<seq<nat>>)
    requires EqualWidth(rows, width) && numbers == NumberGrid(1, width, |rows|)
    ensures InRange(numbers, |Flatten(rows)|)
    ensures forall r :: 0 <= r < |rows| ==> LookUpRow(numbers[r], Flatten(rows)) == rows[r]
  {
    forall r | 0 <= r < |rows|
      ensures forall c :: 0 <= c < |numbers[r]| ==> 1 <= numbers[r][c] <= |Flatten(rows)|
      ensures LookUpRow(numbers[r], Flatten(rows)) == rows[r]
    {
      RowLooksUp(rows, width, r);
      assert numbers[r] == Consecutive(Start(1, width, r), width);
    }
  }

  /** Reading the printed list back, and looking the numbers up, gives exactly the rows. */
  lemma {:induction false} PrintedRowsDecode<V>(d: Dialect, rows: seq<seq<V>>, width: nat)
    requires EqualWidth(rows, width)
    ensures Decode(RowsText(d, width, |rows|), Flatten(rows)) == Some(rows)
  {
    RowsReadBack(d, 1, width, |rows|);
    var numbers := NumberGrid(1, width, |rows|);
    GridLooksUp(rows, width, numbers);
    assert |numbers| == |rows|;
    assert Decode(RowsText(d, width, |rows|), Flatten(rows)).value == rows;
  }

  /** buildBulkInsert and buildInboxBulkInsert of the PostgreSQL dialects: two nested loops that
      number each placeholder from its row and column. */
  method BuildBulkInsert<V>(columns: nat, rows: seq<seq<V>>) returns (values: string, allParams: seq<V>)
    requires EqualWidth(rows, columns)
    ensures values == RowsText(PostgreSql, columns, |rows|) && allParams == Flatten(rows)
    ensures Decode(values, allParams) == Some(rows)
  {
    allParams := [];
    var valuesClauses: seq<string> := [];
    for rowIdx := 0 to |rows|
      invariant valuesClauses == RowList(PostgreSql, 1, columns, rowIdx)
      invariant allParams == Flatten(rows[..rowIdx])
    {
      var row := rows[rowIdx];
      var rowPlaceholders: seq<string> := [];
      for colIdx := 0 to |row|
        invariant rowPlaceholders == ItemList(PostgreSql, Start(1, columns, rowIdx), colIdx)
        invariant allParams == Flatten(rows[..rowIdx]) + row[..colIdx]
      {
        StartIsByRowAndWidth(1, columns, rowIdx);
        var paramIdx := rowIdx * columns + colIdx + 1;
        rowPlaceholders := rowPlaceholders + [Placeholder(PostgreSql, paramIdx)];
        allParams := allParams + [row[colIdx]];
      }
      assert row[..|row|] == row && rows[..rowIdx + 1][..rowIdx] == rows[..rowIdx];
      valuesClauses := valuesClauses + ["(" + Join(rowPlaceholders) + ")"];
    }
    assert rows[..|rows|] == rows;
    values := Join(valuesClauses);
    PrintedRowsDecode(PostgreSql, rows, columns);
  }

  lemma AllMarks(from: nat, marks: seq<string>)
    requires forall c :: 0 <= c < |marks| ==> marks[c] == "?"
    ensures marks == ItemList(MySql, from, |marks|)
  {
    forall c | 0 <= c < |marks|
      ensures marks[c] == ItemList(MySql, from, |marks|)[c]
    {
      assert ItemList(MySql, from, |marks|)[c] == Placeholder(MySql, from + c);
    }
  }

  /** The MySQL dialects: a '?' per value, and the rows flattened. */
  method BuildMarkedInsert<V>(columns: nat, rows: seq<seq<V>>) returns (values: string, allParams: seq<V>)
    requires EqualWidth(rows, columns)
    ensures values == RowsText(MySql, columns, |rows|) && allParams == Flatten(rows)
    ensures Decode(values, allParams) == Some(rows)
  {
    allParams := [];
    var valuesClauses: seq<string> := [];
    for rowIdx := 0 to |rows|
      invariant valuesClauses == RowList(MySql, 1, columns, rowIdx)
      invariant allParams == Flatten(rows[..rowIdx])
    {
      var row := rows[rowIdx];
      var rowPlaceholders := seq(|row|, c => "?");
      AllMarks(Start(1, columns, rowIdx), rowPlaceholders);
      assert rows[..rowIdx + 1][..rowIdx] == rows[..rowIdx];
      valuesClauses := valuesClauses + ["(" + Join(rowPlaceholders) + ")"];
      allParams := allParams + row;
    }
    assert rows[..|rows|] == rows;
    values := Join(valuesClauses);
    PrintedRowsDecode(MySql, rows, columns);
  }

  /** receiveBatch of the PostgreSQL inbox repository: ten values per event, numbered by a
      running index that advances by ten. It prints what the dialect prints. */
  method BuildWithRunningIndex<V>(rows: seq<seq<V>>) returns (values: string, params: seq<V>)
    requires EqualWidth(rows, 10)
    ensures values == RowsText(PostgreSql, 10, |rows|) && params == Flatten(rows)
    ensures Decode(values, params) == Some(rows)
  {
    var valuesClauses: seq<string> := [];
    params := [];
    var paramIndex := 1;
    for i := 0 to |rows|
      invariant paramIndex == Start(1, 10, i)
      invariant valuesClauses == RowList(PostgreSql, 1, 10, i)
      invariant params == Flatten(rows[..i])
    {
      StartNext(1, 10, i);
      var clause := TenPlaceholders(paramIndex);
      assert rows[..i + 1][..i] == rows[..i];
      valuesClauses := valuesClauses + [clause];
      params := params + rows[i];
      paramIndex := paramIndex + 10;
    }
    assert rows[..|rows|] == rows;
    values := Join(valuesClauses);
    PrintedRowsDecode(PostgreSql, rows, 10);
  }

  method TenPlaceholders(p: nat) returns (clause: string)
    ensures clause == RowText(PostgreSql, p, 10)
  {
    var text := (n: nat) => Placeholder(PostgreSql, n);
    var items := [text(p), text(p + 1), text(p + 2), text(p + 3), text(p + 4),
      text(p + 5), text(p + 6), text(p + 7), text(p + 8), text(p + 9)];
    TenInARow(text, p);
    assert items == ItemList(PostgreSql, p, 10);
    clause := "(" + Join(items) + ")";
  }

  lemma TenInARow(f: nat -> string, p: nat)
    ensures [f(p), f(p + 1), f(p + 2), f(p + 3), f(p + 4), f(p + 5), f(p + 6), f(p + 7), f(p + 8), f(p + 9)]
      == seq(10, c requires 0 <= c < 10 => f(p + c))
  {
  }
}
