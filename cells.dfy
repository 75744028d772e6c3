/** Cell parsing, kept abstract. The control reads every cell through
    `double.TryParse`; here that parser is a parameter of the model, a total
    function from a cell's text to an optional value, so nothing below depends
    on how numbers are written or rounded. */
module Cells {

  datatype Option<+T> = None | Some(value: T)

  /** What `double.TryParse` reports for the text of one cell. */
  type Parser = string -> Option<real>

  /** The indices below `n` whose cell parses, in ascending order: the list
      the control builds when it probes one row column by column. */
  function ParsedPrefix(cells: seq<string>, n: nat, parse: Parser): (ix: seq<nat>)
    requires n <= |cells|
    ensures |ix| <= n
    ensures forall i :: 0 <= i < |ix| ==> ix[i] < n && parse(cells[ix[i]]).Some?
    ensures forall i, j :: 0 <= i < j < |ix| ==> ix[i] < ix[j]
    ensures forall c :: 0 <= c < n && parse(cells[c]).Some? ==> c in ix
  {
    if n == 0 then []
    else ParsedPrefix(cells, n - 1, parse) + (if parse(cells[n - 1]).Some? then [n - 1] else [])
  }

  /** No index is listed when no cell parses. */
  lemma {:induction false} NoneParsed(cells: seq<string>, n: nat, parse: Parser)
    requires n <= |cells|
    requires forall c :: 0 <= c < n ==> parse(cells[c]).None?
    ensures ParsedPrefix(cells, n, parse) == []
  {
    if n > 0 {
      NoneParsed(cells, n - 1, parse);
    }
  }

  /** All indices whose cell parses, in ascending order. */
  function ParsedIndices(cells: seq<string>, parse: Parser): seq<nat>
  {
    ParsedPrefix(cells, |cells|, parse)
  }
}
