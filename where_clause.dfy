/**
 * The where-clause both edit-location checks send to the work-order layer: one
 * `<editor field> = '<worker>'` test per worker, joined by ` OR `. Values are spliced in
 * without quoting or escaping, as the scripts do.
 */
module WhereClause {
  import opened Wrappers
  import Text

  const Or: string := " OR "

  /** The test for one worker. */
  function EditorClause(field: string, worker: string): string {
    field + " = '" + worker + "'"
  }

  /** One test per worker, in worker order. */
  function Clauses(field: string, workers: seq<string>): (r: seq<string>)
    ensures |r| == |workers|
  {
    seq(|workers|, i requires 0 <= i < |workers| => EditorClause(field, workers[i]))
  }

  /**
   * The accumulation loop: an empty worker list produces no query (the scripts exit);
   * otherwise the query is the workers' tests, in order, joined by ` OR `.
   */
  method BuildEditorQuery(field: string, workers: seq<string>) returns (r: Option<string>)
    ensures r.None? <==> |workers| == 0
    ensures r.Some? ==> r.value == Text.Join(Or, Clauses(field, workers))
  {
    if |workers| == 0 {
      return None;
    }
    var query := "";
    ghost var clauses := Clauses(field, workers);
    for i := 0 to |workers|
      invariant i == 0 ==> query == ""
      invariant i > 0 ==> query != "" && query == Text.Join(Or, clauses[..i])
    {
      // every test is non-empty, so "query is empty" means "this is the first worker"
      if query != "" {
        query := query + Or;
      }
      query := query + EditorClause(field, workers[i]);
      assert clauses[..i + 1] == clauses[..i] + [clauses[i]];
      if i > 0 {
        Text.JoinSnoc(Or, clauses[..i], clauses[i]);
      }
    }
    assert clauses[..|workers|] == clauses;
    return Some(query);
  }

  /**
   * A query for n workers is the n tests and exactly n - 1 separators: its length is the
   * tests' total length plus 4 * (n - 1).
   */
  lemma QueryLength(field: string, workers: seq<string>)
    requires |workers| >= 1
    ensures |Text.Join(Or, Clauses(field, workers))| == Text.TotalLength(Clauses(field, workers)) + (|workers| - 1) * 4
  {
    Text.JoinLength(Or, Clauses(field, workers));
  }

  /** With one worker the query is that worker's test alone; with more, it starts with the first test and a separator. */
  lemma QueryStartsWithFirstWorker(field: string, workers: seq<string>)
    requires |workers| >= 1
    ensures |workers| == 1 ==> Text.Join(Or, Clauses(field, workers)) == EditorClause(field, workers[0])
    ensures |workers| > 1 ==> Text.IsPrefix(EditorClause(field, workers[0]) + Or, Text.Join(Or, Clauses(field, workers)))
  {
  }
}
