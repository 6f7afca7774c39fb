/**
 * The two Polars expressions `cidr_contains` and `cidr_subnet_of`.
 *
 * Each takes a string column of networks and a second argument (a literal or a
 * column of the same length), and builds a nullable boolean column row by row.
 * The two differ only in direction: `cidr_contains` asks whether the row's
 * network contains the argument's, `cidr_subnet_of` whether the argument's
 * network contains the row's. `Evaluate` states what both produce; the methods
 * build the column in a loop, as the source does, and are proved to agree with it.
 */
module Expressions {
  import opened Wrappers
  import opened Containment
  import opened Argument

  /** Which expression is evaluated. */
  datatype Direction = Contains | SubnetOf {
    /** The argument's name in error reports. */
    function ArgName(): string {
      match this
      case Contains => "needle"
      case SubnetOf => "supernet"
    }
  }

  /** One output row: null unless both the row and the argument at that row hold a
      network; otherwise the containment test, with the row as the supernet for
      `Contains` and as the subnet for `SubnetOf`. */
  function RowOutcome(dir: Direction, row: Option<Net>, arg: Option<Net>): (r: Option<bool>)
    ensures r.None? <==> row.None? || arg.None?
    ensures r.Some? && dir == Contains ==> r.value == NetworkContains(row.value, arg.value)
    ensures r.Some? && dir == SubnetOf ==> r.value == NetworkContains(arg.value, row.value)
  {
    match (row, arg)
    case (Some(network), Some(argNetwork)) =>
      Some(if dir == Contains then NetworkContains(network, argNetwork) else NetworkContains(argNetwork, network))
    case _ => None
  }

  /** The column either expression yields for `inputs`, or the error it raises. */
  function Evaluate(parse: Parser, dir: Direction, inputs: seq<Column>): Result<seq<Option<bool>>, Error> {
    if |inputs| != 2 then Failure(Arity(|inputs|))
    else
      var series := inputs[0];
      var arg :- ResolveNetworkArgument(parse, inputs[1], dir.ArgName(), |series|);
      Success(seq(|series|, i requires 0 <= i < |series| =>
        RowOutcome(dir, ParseOptionalNetwork(parse, series[i]), arg.ValueAt(i))))
  }

  /** The row loop both expressions share: one output entry per input row,
      appended in order. */
  method BuildColumn(parse: Parser, dir: Direction, series: Column, arg: NetworkArgument)
    returns (out: seq<Option<bool>>)
    ensures |out| == |series|
    ensures forall i :: 0 <= i < |series| ==>
      out[i] == RowOutcome(dir, ParseOptionalNetwork(parse, series[i]), arg.ValueAt(i))
  {
    out := [];
    var idx := 0;
    while idx < |series|
      invariant 0 <= idx <= |series|
      invariant |out| == idx
      invariant forall k :: 0 <= k < idx ==>
        out[k] == RowOutcome(dir, ParseOptionalNetwork(parse, series[k]), arg.ValueAt(k))
    {
      match (ParseOptionalNetwork(parse, series[idx]), arg.ValueAt(idx)) {
        case (Some(network), Some(argNetwork)) =>
          var contained := if dir == Contains then NetworkContains(network, argNetwork)
                           else NetworkContains(argNetwork, network);
          out := out + [Some(contained)];
        case _ =>
          out := out + [None];
      }
      idx := idx + 1;
    }
  }

  /** `cidr_contains`: for each row, whether the row's network contains the needle. */
  method CidrContains(parse: Parser, inputs: seq<Column>) returns (r: Result<seq<Option<bool>>, Error>)
    ensures r == Evaluate(parse, Contains, inputs)
  {
    if |inputs| != 2 {
      return Failure(Arity(|inputs|));
    }
    var series := inputs[0];
    var needle :- ResolveNetworkArgument(parse, inputs[1], "needle", |series|);
    var out := BuildColumn(parse, Contains, series, needle);
    assert out == Evaluate(parse, Contains, inputs).value;
    return Success(out);
  }

  /** `cidr_subnet_of`: for each row, whether the supernet argument contains the
      row's network. */
  method CidrSubnetOf(parse: Parser, inputs: seq<Column>) returns (r: Result<seq<Option<bool>>, Error>)
    ensures r == Evaluate(parse, SubnetOf, inputs)
  {
    if |inputs| != 2 {
      return Failure(Arity(|inputs|));
    }
    var series := inputs[0];
    var supernet :- ResolveNetworkArgument(parse, inputs[1], "supernet", |series|);
    var out := BuildColumn(parse, SubnetOf, series, supernet);
    assert out == Evaluate(parse, SubnetOf, inputs).value;
    return Success(out);
  }

  /** Any number of inputs other than two is an error, before anything is parsed. */
  lemma EvaluateArity(parse: Parser, dir: Direction, inputs: seq<Column>)
    ensures |inputs| != 2 <==> Evaluate(parse, dir, inputs) == Failure(Arity(|inputs|))
  {
  }

  /** With two inputs, the expression fails exactly when the argument does not
      resolve, with the argument's error. */
  lemma EvaluateFailsWithArgument(parse: Parser, dir: Direction, inputs: seq<Column>)
    requires |inputs| == 2
    ensures Evaluate(parse, dir, inputs).Failure? <==>
      ResolveNetworkArgument(parse, inputs[1], dir.ArgName(), |inputs[0]|).Failure?
    ensures Evaluate(parse, dir, inputs).Failure? ==>
      Evaluate(parse, dir, inputs).error ==
      ResolveNetworkArgument(parse, inputs[1], dir.ArgName(), |inputs[0]|).error
  {
  }

  /** The argument entry row `i` sees, read off the raw argument column: the
      literal when that column has one row, its own row `i` otherwise. */
  function ArgumentAt(parse: Parser, argColumn: Column, i: nat): Option<Net>
    requires |argColumn| == 1 || i < |argColumn|
  {
    if |argColumn| == 1 then ParseOptionalNetwork(parse, argColumn[0])
    else ParseOptionalNetwork(parse, argColumn[i])
  }

  /** On success the output has one entry per input row; entry `i` is null exactly
      when row `i` or the argument at `i` holds no network, and otherwise is the
      containment test in the expression's direction. */
  lemma EvaluateRows(parse: Parser, dir: Direction, inputs: seq<Column>, i: nat)
    requires Evaluate(parse, dir, inputs).Success?
    ensures |inputs| == 2
    ensures |Evaluate(parse, dir, inputs).value| == |inputs[0]|
    ensures i < |inputs[0]| ==>
      && (|inputs[1]| == 1 || i < |inputs[1]|)
      && Evaluate(parse, dir, inputs).value[i] ==
         RowOutcome(dir, ParseOptionalNetwork(parse, inputs[0][i]), ArgumentAt(parse, inputs[1], i))
  {
    if i < |inputs[0]| {
      ResolvedValueAt(parse, inputs[1], dir.ArgName(), |inputs[0]|, i);
    }
  }

  /** Swapping the two columns swaps the roles: `subnet_of(y, x)` and
      `contains(x, y)` agree row by row when both columns are full per-row
      columns of the same length. */
  lemma SubnetOfIsSwappedContains(parse: Parser, x: Column, y: Column)
    requires |x| == |y| && |x| != 1
    ensures Evaluate(parse, SubnetOf, [y, x]).Success? && Evaluate(parse, Contains, [x, y]).Success?
    ensures Evaluate(parse, SubnetOf, [y, x]) == Evaluate(parse, Contains, [x, y])
  {
    var s := Evaluate(parse, SubnetOf, [y, x]).value;
    var c := Evaluate(parse, Contains, [x, y]).value;
    forall i | 0 <= i < |x|
      ensures s[i] == c[i]
    {
      EvaluateRows(parse, SubnetOf, [y, x], i);
      EvaluateRows(parse, Contains, [x, y], i);
    }
    assert s == c;
  }

  /** Against a /0 literal supernet, every row holding a network of the same
      family is a subnet. */
  lemma SubnetOfZeroPrefixLiteral(parse: Parser, series: Column, literal: string, i: nat)
    requires parse(literal).Some? && parse(literal).value.Prefix() == 0
    requires i < |series|
    requires ParseOptionalNetwork(parse, series[i]).Some?
    requires SameFamily(parse(literal).value, ParseOptionalNetwork(parse, series[i]).value)
    ensures Evaluate(parse, SubnetOf, [series, [Some(literal)]]).Success?
    ensures Evaluate(parse, SubnetOf, [series, [Some(literal)]]).value[i] == Some(true)
  {
    EvaluateRows(parse, SubnetOf, [series, [Some(literal)]], i);
    NetworkContainsZeroPrefix(parse(literal).value, ParseOptionalNetwork(parse, series[i]).value);
  }
}
