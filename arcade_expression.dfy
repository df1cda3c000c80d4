/**
 * The Arcade expression generator: one CSV row per user, each turned into a branch of an
 * `if` / `else if` chain that maps the feature's `created_user` to another value (a full
 * name, a category), followed by a default `return ''`.
 *
 * The CSV rows are given as a sequence of (username, other) pairs, already read.
 */
module ArcadeExpression {
  import Text

  /** One CSV row: the values of the username column and of the other column. */
  datatype Row = Row(username: string, other: string)

  /** The branch of the first row, as left by `textwrap.dedent`. */
  function IfClause(row: Row): string {
    "\nif ($feature.created_user == '" + Text.Strip(row.username) + "') {\n    return '"
    + Text.Strip(row.other) + "'\n}\n"
  }

  /** The branch of every later row. */
  function ElseIfClause(row: Row): string {
    "\nelse if ($feature.created_user == '" + Text.Strip(row.username) + "') {\n    return '"
    + Text.Strip(row.other) + "'\n}\n"
  }

  /** The closing default branch. */
  const DefaultReturn: string := "\nreturn ''\n"

  /**
   * The text of a branch chain: `first` renders the first row, `later` every other row,
   * and the pieces follow row order.
   */
  function Branches(rows: seq<Row>, first: Row -> string, later: Row -> string): string {
    if rows == [] then ""
    else if |rows| == 1 then first(rows[0])
    else Branches(rows[..|rows| - 1], first, later) + later(rows[|rows| - 1])
  }

  /** The branches of all rows, in row order: the first an `if`, the rest `else if`. */
  function Chain(rows: seq<Row>): string {
    Branches(rows, IfClause, ElseIfClause)
  }

  /** The expression the script prints. */
  function Expression(rows: seq<Row>): string {
    Chain(rows) + DefaultReturn
  }

  /** The script's loop: append the row's branch, choosing `if` for row 0, then the default. */
  method BuildExpression(rows: seq<Row>) returns (expression: string)
    ensures expression == Expression(rows)
  {
    expression := "";
    for i := 0 to |rows|
      invariant expression == Chain(rows[..i])
    {
      BranchesStep(rows, i, IfClause, ElseIfClause);
      if i == 0 {
        expression := expression + IfClause(rows[i]);
      } else {
        expression := expression + ElseIfClause(rows[i]);
      }
    }
    assert rows[..|rows|] == rows;
    expression := expression + DefaultReturn;
  }

  // ---------------------------------------------------------------- properties of the chain

  /** Rendering one more row appends its branch: the `first` one for row 0, a `later` one after. */
  lemma BranchesStep(rows: seq<Row>, i: nat, first: Row -> string, later: Row -> string)
    requires i < |rows|
    ensures Branches(rows[..i + 1], first, later)
      == Branches(rows[..i], first, later) + (if i == 0 then first(rows[0]) else later(rows[i]))
  {
    assert rows[..i + 1][..i] == rows[..i];
  }

  /** Each of some rows rendered by `later`, in order. */
  function Each(rows: seq<Row>, later: Row -> string): string {
    if rows == [] then "" else Each(rows[..|rows| - 1], later) + later(rows[|rows| - 1])
  }

  /**
   * One branch per row, in row order: the expression is the first row's `if` branch, then
   * an `else if` branch for each later row, then the default.
   */
  lemma ChainShape(rows: seq<Row>)
    requires rows != []
    ensures Expression(rows) == IfClause(rows[0]) + Each(rows[1..], ElseIfClause) + DefaultReturn
  {
    BranchesSplit(rows, IfClause, ElseIfClause);
  }

  lemma {:induction false} BranchesSplit(rows: seq<Row>, first: Row -> string, later: Row -> string)
    requires rows != []
    ensures Branches(rows, first, later) == first(rows[0]) + Each(rows[1..], later)
    decreases |rows|
  {
    if |rows| > 1 {
      var init := rows[..|rows| - 1];
      BranchesSplit(init, first, later);
      assert init[1..] == rows[1..][..|rows[1..]| - 1];
    } else {
      assert rows[1..] == [];
    }
  }

  /** With no rows the expression is only the default branch. */
  lemma NoRowsOnlyDefault()
    ensures Expression([]) == DefaultReturn
  {
  }

  /** Every expression ends with the default branch. */
  lemma EndsWithDefault(rows: seq<Row>)
    ensures |Expression(rows)| >= |DefaultReturn|
    ensures Expression(rows)[|Expression(rows)| - |DefaultReturn|..] == DefaultReturn
  {
    var e := Expression(rows);
    assert e == Chain(rows) + DefaultReturn;
    assert e[|Chain(rows)|..] == DefaultReturn;
  }

  /**
   * Surrounding whitespace in the CSV values does not reach the expression: a table whose
   * values are already stripped gives the same text.
   */
  lemma ValuesStripped(rows: seq<Row>)
    ensures Expression(StrippedRows(rows)) == Expression(rows)
  {
    ChainStripped(rows);
  }

  /** The rows with both values stripped. */
  function StrippedRows(rows: seq<Row>): (r: seq<Row>)
    ensures |r| == |rows|
    ensures forall i | 0 <= i < |rows| :: r[i] == Row(Text.Strip(rows[i].username), Text.Strip(rows[i].other))
  {
    seq(|rows|, i requires 0 <= i < |rows| => Row(Text.Strip(rows[i].username), Text.Strip(rows[i].other)))
  }

  lemma ChainStripped(rows: seq<Row>)
    ensures Chain(StrippedRows(rows)) == Chain(rows)
  {
    var stripped := StrippedRows(rows);
    forall i | 0 <= i < |rows|
      ensures IfClause(stripped[i]) == IfClause(rows[i]) && ElseIfClause(stripped[i]) == ElseIfClause(rows[i])
    {
      Text.StripIdempotent(rows[i].username);
      Text.StripIdempotent(rows[i].other);
    }
    BranchesAgree(stripped, rows, IfClause, ElseIfClause);
  }

  /** Rows that render alike, position by position, give the same chain. */
  lemma {:induction false} BranchesAgree(rows: seq<Row>, others: seq<Row>, first: Row -> string, later: Row -> string)
    requires |rows| == |others|
    requires forall i | 0 <= i < |rows| :: first(rows[i]) == first(others[i]) && later(rows[i]) == later(others[i])
    ensures Branches(rows, first, later) == Branches(others, first, later)
    decreases |rows|
  {
    if |rows| > 1 {
      BranchesAgree(rows[..|rows| - 1], others[..|rows| - 1], first, later);
    }
  }
}
