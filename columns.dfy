/** `books.drop(columns=[...])` on the list of column names of the books table. */
module Columns {
  import opened Wrappers
  import opened Seqs

  /** The four columns removed from the books table before it is returned. */
  const BookColumnsDropped: seq<string> := ["Publisher", "Image-URL-S", "Image-URL-M", "Image-URL-L"]

  /** pandas raises a KeyError naming the labels that are not columns of the table. */
  datatype DropError = ColumnsNotFound(labels: seq<string>)

  /** `drop(columns=labels)`: fails when some label is not a column; otherwise removes every
      column named by a label and keeps all the others, in order and with their multiplicity. */
  function DropColumns(columns: seq<string>, labels: seq<string>): (r: Result<seq<string>, DropError>)
    ensures r.Failure? <==> exists l :: l in labels && l !in columns
    ensures r.Failure? ==> forall l :: l in r.error.labels <==> l in labels && l !in columns
    ensures r.Success? ==> IsSubsequence(r.value, columns)
    ensures r.Success? ==> forall c :: c in r.value <==> c in columns && c !in labels
    ensures r.Success? ==> forall c :: multiset(r.value)[c] == if c in labels then 0 else multiset(columns)[c]
  {
    var missing := Filter(labels, l => l !in columns);
    FilterSpec(labels, l => l !in columns);
    FilterSpec(columns, c => c !in labels);
    if missing != [] then
      Failure(ColumnsNotFound(missing))
    else
      assert forall l :: l in labels ==> l in columns;
      Success(Filter(columns, c => c !in labels))
  }
}
