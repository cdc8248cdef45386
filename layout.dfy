// The text printList writes (protein.c:50-105): a label line before symbols
// 0, 50, 100, ..., the symbols in list order, a space after every 10th symbol
// inside a row unless it is the last one, a newline after every 50th, and a
// final newline. `Printed` follows the loop symbol by symbol; `Layout` states
// the same text row by row, and PrintedIsLayout proves the two agree.

module Rendering {
  import opened CText

  function Spaces(n: nat): (r: string)
    ensures |r| == n && forall i :: 0 <= i < n ==> r[i] == ' '
  {
    seq(n, _ => ' ')
  }

  /** A conversion of `printf` with field width `width`: right-justified, never cut. */
  function PadLeft(s: string, width: nat): string
  {
    if |s| < width then Spaces(width - |s|) + s else s
  }

  /** One label: `printf("%10c", 32)` when it exceeds listSize, else `printf("%10d", value)`. */
  function Field(value: nat, listSize: int): string
  {
    if value > listSize then PadLeft([' '], 10) else PadLeft(Decimal(value), 10)
  }

  /** The value of label i (1..5) in the label line of row `row`. */
  function LabelValue(row: nat, i: nat): nat
  {
    50 * row + 10 * i
  }

  /** The first n fields of a label line, each but the fifth followed by a space. */
  function HeaderFields(row: nat, n: nat, listSize: int): string
    requires n <= 5
  {
    if n == 0 then ""
    else HeaderFields(row, n - 1, listSize) + Field(LabelValue(row, n), listSize) + (if n != 5 then " " else "")
  }

  /** The label line printed before symbol 50 * row. */
  function Header(row: nat, listSize: int): string
  {
    HeaderFields(row, 5, listSize) + "\n"
  }

  /**
   * A label line is five fields of width ten separated by single spaces, the
   * labels of row r being 50r+10, ..., 50r+50.
   */
  lemma HeaderShape(row: nat, listSize: int)
    requires LabelValue(row, 5) < Pow10(10)
    ensures Header(row, listSize) ==
      Field(LabelValue(row, 1), listSize) + " " + Field(LabelValue(row, 2), listSize) + " " +
      Field(LabelValue(row, 3), listSize) + " " + Field(LabelValue(row, 4), listSize) + " " +
      Field(LabelValue(row, 5), listSize) + "\n"
    ensures |Header(row, listSize)| == 55
  {
    assert HeaderFields(row, 1, listSize) == Field(LabelValue(row, 1), listSize) + " ";
    assert HeaderFields(row, 2, listSize) == HeaderFields(row, 1, listSize) + Field(LabelValue(row, 2), listSize) + " ";
    assert HeaderFields(row, 3, listSize) == HeaderFields(row, 2, listSize) + Field(LabelValue(row, 3), listSize) + " ";
    assert HeaderFields(row, 4, listSize) == HeaderFields(row, 3, listSize) + Field(LabelValue(row, 4), listSize) + " ";
    assert HeaderFields(row, 5, listSize) == HeaderFields(row, 4, listSize) + Field(LabelValue(row, 5), listSize);
    FieldShape(LabelValue(row, 1), listSize);
    FieldShape(LabelValue(row, 2), listSize);
    FieldShape(LabelValue(row, 3), listSize);
    FieldShape(LabelValue(row, 4), listSize);
    FieldShape(LabelValue(row, 5), listSize);
  }

  /** A label above listSize is ten spaces; any other shows its value right-justified in ten columns. */
  lemma FieldShape(value: nat, listSize: int)
    requires value < Pow10(10)
    ensures |Field(value, listSize)| == 10
    ensures value > listSize ==> Field(value, listSize) == Spaces(10)
    ensures value <= listSize ==>
      |Decimal(value)| <= 10 &&
      Field(value, listSize) == Spaces(10 - |Decimal(value)|) + Decimal(value) &&
      DigitsValue(Decimal(value)) == value
  {
    DecimalLength(value, 10);
    DecimalRoundTrip(value);
    if value > listSize {
      assert Spaces(9) + [' '] == Spaces(10);
    } else {
      var d := Decimal(value);
      if |d| == 10 {
        assert Spaces(0) + d == d;
      }
    }
  }

  /** A shown label is never blank: a field is all spaces iff its label exceeds listSize. */
  lemma FieldBlankIff(value: nat, listSize: int)
    requires value < Pow10(10)
    ensures Field(value, listSize) == Spaces(10) <==> value > listSize
  {
    FieldShape(value, listSize);
    if value <= listSize {
      var d := Decimal(value);
      var f := Field(value, listSize);
      assert f[9] == d[|d| - 1];
      assert IsDigit(f[9]);
    }
  }

  // ---------------------------------------------------------------------------
  // The loop of printList, one symbol at a time

  /**
   * What follows the q-th symbol: a space after a 10th symbol that neither ends
   * a row nor stands before `limit`, which the source writes
   * `listSize - numsDeleted + 1`; a newline after a 50th symbol.
   */
  function Separator(q: int, limit: int): string
  {
    if q % 10 == 0 && q % 50 != 0 && q < limit then " "
    else if q % 50 == 0 then "\n"
    else ""
  }

  /** A number given by its quotient and remainder modulo 10. */
  lemma DivMod10(q: int, r: int)
    requires 0 <= r < 10
    ensures (10 * q + r) % 10 == r && (10 * q + r) / 10 == q
  {
  }

  /** A number given by its quotient and remainder modulo 50. */
  lemma DivMod50(q: int, r: int)
    requires 0 <= r < 50
    ensures (50 * q + r) % 50 == r && (50 * q + r) / 50 == q
  {
  }

  /** One pass of the loop for symbol p: label line if p starts a row, the symbol, its separator. */
  function Piece(s: seq<char>, p: nat, listSize: int, limit: int): string
    requires p < |s|
  {
    (if p % 50 == 0 then Header(p / 50, listSize) else "") + [s[p]] + Separator(p + 1, limit)
  }

  /** The output of the loop for symbols a .. b-1. */
  function Span(s: seq<char>, a: nat, b: nat, listSize: int, limit: int): string
    requires a <= b <= |s|
    decreases b - a
  {
    if a == b then "" else Span(s, a, b - 1, listSize, limit) + Piece(s, b - 1, listSize, limit)
  }

  /** Everything printList writes for the symbols `s`. */
  function Printed(s: seq<char>, listSize: int, numsDeleted: int): string
  {
    Span(s, 0, |s|, listSize, listSize - numsDeleted + 1) + "\n"
  }

  // ---------------------------------------------------------------------------
  // The same text, row by row

  /** Up to ten-symbol groups, separated by single spaces. */
  function Grouped(c: seq<char>): string
    decreases |c|
  {
    if |c| <= 10 then c else c[..10] + " " + Grouped(c[10..])
  }

  /** The symbols of one row; a full row of 50 ends with a newline. */
  function RowText(c: seq<char>): string
  {
    Grouped(c) + (if |c| == 50 then "\n" else "")
  }

  /** Rows of up to 50 symbols from row `row` on, each under its label line. */
  function Rows(s: seq<char>, row: nat, listSize: int): string
    decreases |s| - 50 * row
  {
    var b := 50 * row;
    if b >= |s| then ""
    else
      var e := if |s| - b < 50 then |s| else b + 50;
      Header(row, listSize) + RowText(s[b..e]) + Rows(s, row + 1, listSize)
  }

  /** The layout the printed table follows. */
  function Layout(s: seq<char>, listSize: int): string
  {
    Rows(s, 0, listSize) + "\n"
  }

  // ---------------------------------------------------------------------------
  // The loop prints the layout

  lemma {:induction false} SpanSplit(s: seq<char>, a: nat, m: nat, b: nat, listSize: int, limit: int)
    requires a <= m <= b <= |s|
    ensures Span(s, a, b, listSize, limit) == Span(s, a, m, listSize, limit) + Span(s, m, b, listSize, limit)
    decreases b - m
  {
    if m < b {
      SpanSplit(s, a, m, b - 1, listSize, limit);
    }
  }

  /**
   * What follows the last symbol of group k of row `row`: a newline after the
   * fifth group, a space before a later symbol, otherwise nothing.
   */
  function GroupEnd(row: nat, k: nat, limit: int): string
  {
    if k == 4 then "\n" else if 50 * row + 10 * k + 10 < limit then " " else ""
  }

  /**
   * Symbol p, the i-th of group k of row `row`: its label line only at the
   * start of the row, a separator only after the tenth symbol of the group.
   */
  lemma PieceAt(s: seq<char>, p: nat, row: nat, k: nat, i: nat, listSize: int, limit: int)
    requires k < 5 && i < 10 && p == 50 * row + 10 * k + i && p < |s|
    ensures Piece(s, p, listSize, limit) ==
      (if k == 0 && i == 0 then Header(row, listSize) else "") + [s[p]] + (if i < 9 then "" else GroupEnd(row, k, limit))
  {
    DivMod50(row, 10 * k + i);
    DivMod10(5 * row + k, i);
    if i < 9 {
      DivMod50(row, 10 * k + i + 1);
      DivMod10(5 * row + k, i + 1);
    } else if k < 4 {
      DivMod50(row, 10 * k + 10);
      DivMod10(5 * row + k + 1, 0);
    } else {
      DivMod50(row + 1, 0);
      DivMod10(5 * row + 5, 0);
    }
  }

  /** Symbols g .. h-1 of group k of row `row`, which starts at symbol g. */
  lemma {:induction false} GroupSpan(s: seq<char>, g: nat, h: nat, row: nat, k: nat, listSize: int, limit: int)
    requires k < 5 && g == 50 * row + 10 * k && g < h <= g + 10 && h <= |s|
    ensures Span(s, g, h, listSize, limit) ==
      (if k == 0 then Header(row, listSize) else "") + s[g..h] + (if h < g + 10 then "" else GroupEnd(row, k, limit))
    decreases h - g
  {
    var p := h - 1;
    var head := if k == 0 then Header(row, listSize) else "";
    var end := if h < g + 10 then "" else GroupEnd(row, k, limit);
    PieceAt(s, p, row, k, p - g, listSize, limit);
    if p == g {
      SymbolAfter(Span(s, g, h, listSize, limit), Span(s, g, p, listSize, limit), Piece(s, p, listSize, limit),
                  "", head, s[p], end, s[g..h]);
    } else {
      GroupSpan(s, g, p, row, k, listSize, limit);
      SliceSnoc(s, g, h);
      SymbolAfter(Span(s, g, h, listSize, limit), Span(s, g, p, listSize, limit), Piece(s, p, listSize, limit),
                  s[g..p], head, s[p], end, s[g..h]);
    }
  }

  lemma SliceSnoc(s: seq<char>, g: nat, h: nat)
    requires g < h <= |s|
    ensures s[g..h - 1] + [s[h - 1]] == s[g..h]
  {
  }

  /**
   * Appending one symbol to a group already printed.
   * A lemma over plain string values, so that the caller hands the solver this
   * regrouping directly instead of leaving it to search among long concatenations.
   */
  lemma SymbolAfter(span: string, before: string, piece: string, x: string, head: string, c: char, end: string, slice: string)
    requires span == before + piece && x + [c] == slice
    requires x == "" ==> before == "" && piece == head + [c] + end
    requires x != "" ==> before == head + x + "" && piece == "" + [c] + end
    ensures span == head + slice + end
  {
  }

  /** The text of a row from group start g on: its label line if g starts the row, the groups, the row end. */
  function RowRest(s: seq<char>, row: nat, g: nat, e: nat, listSize: int): string
    requires g <= e <= |s|
  {
    (if g == 50 * row then Header(row, listSize) else "") + (Grouped(s[g..e]) + (if e == 50 * row + 50 then "\n" else ""))
  }

  /** The last group of a row, group k starting at symbol g. */
  lemma LastGroupSpan(s: seq<char>, row: nat, k: nat, g: nat, e: nat, listSize: int)
    requires k < 5 && g == 50 * row + 10 * k && g < e <= g + 10 && e <= |s|
    requires e == 50 * row + 50 || e == |s|
    ensures Span(s, g, e, listSize, |s|) == RowRest(s, row, g, e, listSize)
  {
    GroupSpan(s, g, e, row, k, listSize, |s|);
    assert Grouped(s[g..e]) == s[g..e];
  }

  /** A group k starting at symbol g that is not the last of its row, followed by the rest of the row. */
  lemma InnerGroupSpan(s: seq<char>, row: nat, k: nat, g: nat, e: nat, listSize: int)
    requires k < 4 && g == 50 * row + 10 * k && g + 10 < e <= 50 * row + 50 && e <= |s|
    requires Span(s, g + 10, e, listSize, |s|) == RowRest(s, row, g + 10, e, listSize)
    ensures Span(s, g, e, listSize, |s|) == RowRest(s, row, g, e, listSize)
  {
    var h := g + 10;
    var head := if g == 50 * row then Header(row, listSize) else "";
    var tail := if e == 50 * row + 50 then "\n" else "";
    var x, y := s[g..h], Grouped(s[h..e]);
    GroupSpan(s, g, h, row, k, listSize, |s|);
    var sep := GroupEnd(row, k, |s|);
    assert sep == " ";
    assert Span(s, g, h, listSize, |s|) == head + x + sep;
    assert Span(s, h, e, listSize, |s|) == "" + (y + tail);
    GroupedSplit(s, g, e);
    SpanSplit(s, g, h, e, listSize, |s|);
    JoinGroups(Span(s, g, e, listSize, |s|), Span(s, g, h, listSize, |s|), Span(s, h, e, listSize, |s|),
               head, x, sep, y, tail, Grouped(s[g..e]), RowRest(s, row, g, e, listSize));
  }

  /** More than ten symbols are grouped as the first ten, a space, then the rest grouped. */
  lemma GroupedSplit(s: seq<char>, g: nat, e: nat)
    requires g + 10 < e <= |s|
    ensures Grouped(s[g..e]) == s[g..g + 10] + " " + Grouped(s[g + 10..e])
  {
    var c := s[g..e];
    assert c[..10] == s[g..g + 10] && c[10..] == s[g + 10..e];
  }

  /**
   * A full group, its space, and the groups after it, under the row's label line if any.
   * A lemma over plain string values, so that the caller hands the solver this
   * regrouping directly instead of leaving it to search among long concatenations.
   */
  lemma JoinGroups(total: string, first: string, rest: string, head: string, x: string, sep: string, y: string,
                   tail: string, grouped: string, rowRest: string)
    requires total == first + rest && first == head + x + sep && sep == " "
    requires rest == "" + (y + tail) && grouped == x + " " + y && rowRest == head + (grouped + tail)
    ensures total == rowRest
  {
  }

  /** From group k, starting at symbol g, to the row end e. */
  lemma {:induction false} RowSpan(s: seq<char>, row: nat, k: nat, g: nat, e: nat, listSize: int)
    requires k < 5 && g == 50 * row + 10 * k && g < e <= 50 * row + 50 && e <= |s|
    requires e == 50 * row + 50 || e == |s|
    ensures Span(s, g, e, listSize, |s|) == RowRest(s, row, g, e, listSize)
    decreases 5 - k
  {
    if e <= g + 10 {
      LastGroupSpan(s, row, k, g, e, listSize);
    } else {
      RowSpan(s, row, k + 1, g + 10, e, listSize);
      InnerGroupSpan(s, row, k, g, e, listSize);
    }
  }

  /** The loop output for one full or final row is its label line and its symbols. */
  lemma RowOutput(s: seq<char>, row: nat, e: nat, listSize: int)
    requires 50 * row < e <= |s| && (e == 50 * row + 50 || (e == |s| && e < 50 * row + 50))
    ensures Span(s, 50 * row, e, listSize, |s|) == Header(row, listSize) + RowText(s[50 * row..e])
  {
    var b := 50 * row;
    RowSpan(s, row, 0, b, e, listSize);
    var c := s[b..e];
    var nl := if e == b + 50 then "\n" else "";
    assert |c| == 50 <==> e == b + 50;
    FirstRowRest(Span(s, b, e, listSize, |s|), Header(row, listSize), Grouped(c), nl, RowText(c));
  }

  /**
   * The label line followed by the groups and the row end is the label line and the row text.
   * A lemma over plain string values, so that the caller hands the solver this
   * regrouping directly instead of leaving it to search among long concatenations.
   */
  lemma FirstRowRest(span: string, header: string, groups: string, nl: string, text: string)
    requires span == header + (groups + nl) && text == groups + nl
    ensures span == header + text
  {
  }

  /** One full or final row, ending at symbol e, followed by the rows after it. */
  lemma RowsStep(s: seq<char>, row: nat, e: nat, listSize: int)
    requires 50 * row < e <= |s| && (e == 50 * row + 50 || (e == |s| && e < 50 * row + 50))
    requires Span(s, e, |s|, listSize, |s|) == Rows(s, row + 1, listSize)
    ensures Span(s, 50 * row, |s|, listSize, |s|) == Rows(s, row, listSize)
  {
    RowOutput(s, row, e, listSize);
    SpanSplit(s, 50 * row, e, |s|, listSize, |s|);
  }

  /** The loop output from the start of row `row` to the end is the rows from there on. */
  lemma {:induction false} RowsSpan(s: seq<char>, row: nat, listSize: int)
    requires 50 * row <= |s|
    ensures Span(s, 50 * row, |s|, listSize, |s|) == Rows(s, row, listSize)
    decreases |s| - 50 * row
  {
    var b := 50 * row;
    if b == |s| {
    } else if |s| - b <= 50 {
      var e := if |s| - b < 50 then |s| else b + 50;
      assert Rows(s, row + 1, listSize) == "";
      RowsStep(s, row, e, listSize);
    } else {
      var next := row + 1;
      var e := 50 * next;
      RowsSpan(s, next, listSize);
      RowsStep(s, row, e, listSize);
    }
  }

  /**
   * When `listSize - numsDeleted + 1` is the number of symbols (as in main),
   * printList writes exactly the row layout.
   */
  lemma PrintedIsLayout(s: seq<char>, listSize: int, numsDeleted: int)
    requires listSize - numsDeleted + 1 == |s|
    ensures Printed(s, listSize, numsDeleted) == Layout(s, listSize)
  {
    RowsSpan(s, 0, listSize);
  }
}
