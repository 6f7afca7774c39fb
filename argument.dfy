/**
 * The second input of both expressions: `NetworkArgument`, `value_at`,
 * `parse_optional_network` and `resolve_network_argument`.
 *
 * A Polars string column is a sequence of optional strings. Parsing text into
 * a network belongs to the `ipnetwork` crate, which is not part of this model;
 * every operation here takes that parser as a parameter, so whatever it
 * accepts or rejects, the results below hold.
 */
module Argument {
  import opened Wrappers
  import opened Containment

  /** `str::parse::<IpNetwork>`, reduced to its outcome: a network or a rejection. */
  type Parser = string -> Option<Net>

  /** A string column: one optional string per row. */
  type Column = seq<Option<string>>

  /** The `ComputeError`s the core raises; their message text is not modelled. */
  datatype Error =
    | Arity(count: nat)
    | NullLiteral(argName: string)
    | InvalidLiteral(argName: string, text: string)
    | LengthMismatch(argName: string, expected: nat, got: nat)

  /** `parse_optional_network`: a null entry, or text the parser rejects, gives no
      network; per-row failures are nulls, never errors. */
  function ParseOptionalNetwork(parse: Parser, value: Option<string>): (r: Option<Net>)
    ensures r.Some? <==> value.Some? && parse(value.value).Some?
    ensures r.Some? ==> r == parse(value.value)
  {
    match value
    case None => None
    case Some(text) => parse(text)
  }

  /** The `map(parse_optional_network).collect()` over a whole column. */
  function ParseColumn(parse: Parser, column: Column): (r: seq<Option<Net>>)
    ensures |r| == |column|
    ensures forall i :: 0 <= i < |column| ==> r[i] == ParseOptionalNetwork(parse, column[i])
  {
    if column == [] then []
    else [ParseOptionalNetwork(parse, column[0])] + ParseColumn(parse, column[1..])
  }

  /** `NetworkArgument`: one network broadcast to every row, or one optional
      network per row. */
  datatype NetworkArgument = Literal(network: Net) | Series(values: seq<Option<Net>>) {
    /** `value_at`: the literal at every index; a series entry at its own index,
        and nothing past the end of the series. */
    function ValueAt(idx: nat): (r: Option<Net>)
      ensures Literal? ==> r == Some(network)
      ensures Series? && idx < |values| ==> r == values[idx]
      ensures Series? && idx >= |values| ==> r.None?
    {
      match this
      case Literal(network) => Some(network)
      case Series(values) => if idx < |values| then values[idx] else None
    }
  }

  /** `resolve_network_argument`. A one-row column is a literal, whatever the
      expected length: a null or unparsable literal is an error. Any other
      column must have exactly the expected number of rows, and is parsed row
      by row, each failure becoming a null. */
  function ResolveNetworkArgument(parse: Parser, column: Column, argName: string, expectedLen: nat)
    : (r: Result<NetworkArgument, Error>)
    ensures |column| == 1 && column[0].None? ==> r == Failure(NullLiteral(argName))
    ensures |column| == 1 && column[0].Some? && parse(column[0].value).None? ==>
      r == Failure(InvalidLiteral(argName, column[0].value))
    ensures |column| == 1 && column[0].Some? && parse(column[0].value).Some? ==>
      r == Success(Literal(parse(column[0].value).value))
    ensures |column| != 1 && |column| != expectedLen ==>
      r == Failure(LengthMismatch(argName, expectedLen, |column|))
    ensures |column| != 1 && |column| == expectedLen ==>
      r.Success? && r.value.Series? && |r.value.values| == expectedLen &&
      forall i :: 0 <= i < expectedLen ==> r.value.values[i] == ParseOptionalNetwork(parse, column[i])
  {
    if |column| == 1 then
      match column[0]
      case None => Failure(NullLiteral(argName))
      case Some(text) =>
        match parse(text)
        case None => Failure(InvalidLiteral(argName, text))
        case Some(network) => Success(Literal(network))
    else if |column| != expectedLen then
      Failure(LengthMismatch(argName, expectedLen, |column|))
    else
      Success(Series(ParseColumn(parse, column)))
  }

  /** Once resolved, the argument supplies to row `idx` the literal if the column
      had one row, and otherwise the parse of its own row `idx`. */
  lemma ResolvedValueAt(parse: Parser, column: Column, argName: string, expectedLen: nat, idx: nat)
    requires ResolveNetworkArgument(parse, column, argName, expectedLen).Success?
    requires idx < expectedLen
    ensures ResolveNetworkArgument(parse, column, argName, expectedLen).value.ValueAt(idx) ==
      if |column| == 1 then ParseOptionalNetwork(parse, column[0])
      else ParseOptionalNetwork(parse, column[idx])
  {
  }

  /** Resolution fails only on a bad literal or a length mismatch: a column of the
      expected length, other than a single row, always resolves. */
  lemma ResolveFailsOnlyOnLiteralOrLength(parse: Parser, column: Column, argName: string, expectedLen: nat)
    ensures ResolveNetworkArgument(parse, column, argName, expectedLen).Failure? <==>
      (|column| == 1 && ParseOptionalNetwork(parse, column[0]).None?) ||
      (|column| != 1 && |column| != expectedLen)
  {
  }
}
