# polars-network containment engine in Dafny

A model of the containment engine of `polars-network`, a Polars plugin that
adds CIDR predicates to string columns. It covers `src/expressions.rs`:

- the prefix masks `ipv4_prefix_mask` and `ipv6_prefix_mask`, over `bv32` and `bv128`;
- the containment test: `contains_ipv4`, `contains_ipv6` and `network_contains`;
- the second argument of both expressions: `NetworkArgument`, `value_at`,
  `parse_optional_network` and `resolve_network_argument`;
- the two expressions `cidr_contains` and `cidr_subnet_of`. Each is a method
  that checks the arity, resolves the argument and then calls the shared
  method `BuildColumn`. That method takes the direction as a parameter, and its
  loop appends one nullable boolean per row, as the Rust builder does.

Files:

- `wrappers.dfy`: `Option` and `Result`.
- `prefix_mask.dfy`: module `PrefixMask`.
- `containment.dfy`: module `Containment`. Networks, addresses and the test.
  The test holds exactly when every address of the subnet is an address of the
  supernet. It is also reflexive and transitive.
- `argument.dfy`: module `Argument`. String columns, the abstract parser and
  argument resolution.
- `expressions.dfy`: module `Expressions`. `Evaluate` is the specification of
  both expressions. `CidrContains` and `CidrSubnetOf` are proved equal to it.

Text is parsed by the `ipnetwork` crate, which is not part of this model.
Every operation that parses takes the parser as a parameter,
`parse: string -> Option<Net>`, so every result holds whatever that parser
accepts. A network keeps its address as typed, host bits included.
`Network()` masks the address with the prefix mask, as `ipnetwork`'s
`network()` does. The test applies `Network()` to both sides, so host bits in
the typed text never change its answer.

**Direction.** The model follows the code. In `cidr_contains` the row is the
supernet and the needle is the subnet (src/expressions.rs:26). In
`cidr_subnet_of` the argument is the supernet and the row is the subnet
(src/expressions.rs:51). `Containment.NetworkContainsDirection` proves that
10.0.0.0/16 contains 10.0.0.0/24 and that 10.0.0.0/24 does not contain
10.0.0.0/16.

## Model

| member | source | states |
|---|---|---|
| PrefixMask.Ipv4PrefixMask | src/expressions.rs:139-145 | the mask is zero exactly for prefix 0 and all ones exactly for prefix 32 |
| PrefixMask.Ipv4PrefixMaskBits | src/expressions.rs:139-145 | bit i of the mask for p is set iff i >= 32 - p: exactly the top p bits are set |
| PrefixMask.Ipv4PrefixMaskNested | src/expressions.rs:139-145 | for p <= q the mask for p is a sub-mask of the mask for q |
| PrefixMask.Ipv4PrefixMaskDistinct | src/expressions.rs:139-145 | different prefixes give different masks |
| PrefixMask.Ipv4PrefixMaskGap | src/expressions.rs:139-145 | for q < p it yields a bit set in the mask for p and clear in the mask for q |
| PrefixMask.Ipv6PrefixMask | src/expressions.rs:147-153 | the mask is zero exactly for prefix 0 and all ones exactly for prefix 128 |
| PrefixMask.Ipv6PrefixMaskBits | src/expressions.rs:147-153 | bit i of the mask for p is set iff i >= 128 - p: exactly the top p bits are set |
| PrefixMask.Ipv6PrefixMaskNested | src/expressions.rs:147-153 | for p <= q the mask for p is a sub-mask of the mask for q |
| PrefixMask.Ipv6PrefixMaskDistinct | src/expressions.rs:147-153 | different prefixes give different masks |
| PrefixMask.Ipv6PrefixMaskGap | src/expressions.rs:147-153 | for q < p it yields a bit set in the mask for p and clear in the mask for q |
| Containment.ContainsIpv4 | src/expressions.rs:121-128 | a supernet whose prefix is longer than the subnet's never contains it |
| Containment.ContainsIpv4Reflexive | src/expressions.rs:121-128 | every IPv4 network contains itself |
| Containment.ContainsIpv4ZeroPrefix | src/expressions.rs:126-127 | a /0 network contains every IPv4 network |
| Containment.ContainsIpv4Sound | src/expressions.rs:121-128 | every address of a contained subnet is an address of the supernet |
| Containment.ContainsIpv4Complete | src/expressions.rs:121-128 | if every address of the subnet is an address of the supernet, the test holds |
| Containment.ContainsIpv4Transitive | src/expressions.rs:121-128 | if a contains b and b contains c, then a contains c |
| Containment.ContainsIpv6 | src/expressions.rs:130-137 | a supernet whose prefix is longer than the subnet's never contains it |
| Containment.ContainsIpv6Reflexive | src/expressions.rs:130-137 | every IPv6 network contains itself |
| Containment.ContainsIpv6ZeroPrefix | src/expressions.rs:135-136 | a /0 network contains every IPv6 network |
| Containment.ContainsIpv6Sound | src/expressions.rs:130-137 | every address of a contained subnet is an address of the supernet |
| Containment.ContainsIpv6Complete | src/expressions.rs:130-137 | if every address of the subnet is an address of the supernet, the test holds |
| Containment.ContainsIpv6Transitive | src/expressions.rs:130-137 | if a contains b and b contains c, then a contains c |
| Containment.NetworkContains | src/expressions.rs:113-119 | a true answer needs both networks in the same family and a supernet prefix no longer than the subnet's; a family mismatch is false, never an error |
| Containment.NetworkContainsReflexive | src/expressions.rs:113-119 | every network contains itself |
| Containment.NetworkContainsSound | src/expressions.rs:113-119 | every address of a contained network, of either family, is an address of the containing one |
| Containment.NetworkContainsComplete | src/expressions.rs:113-119 | if every address of the subnet, of either family, is an address of the supernet, the test holds; so networks of different families never hold all of one another's addresses |
| Containment.NetworkContainsIffAddresses | src/expressions.rs:113-137 | the test holds if and only if every address of the subnet is an address of the supernet |
| Containment.NetworkContainsTransitive | src/expressions.rs:113-119 | containment is transitive across both families |
| Containment.NetworkContainsZeroPrefix | src/expressions.rs:113-119 | a /0 network contains every network of its family |
| Containment.NetworkContainsDirection | src/expressions.rs:113-128 | 10.0.0.0/16 contains 10.0.0.0/24 and 10.0.0.0/24 does not contain 10.0.0.0/16 |
| Argument.ParseOptionalNetwork | src/expressions.rs:109-111 | gives a network iff the entry is non-null and the parser accepts it, and then exactly the parser's network |
| Argument.ParseColumn | src/expressions.rs:101-104 | one entry per row, entry i being the parse of row i |
| Argument.NetworkArgument.ValueAt | src/expressions.rs:65-71 | a literal answers every index; a series answers its own entry at an index inside it and nothing past its end |
| Argument.ResolveNetworkArgument | src/expressions.rs:74-107 | a one-row column is a literal even when one row is expected, and fails if that row is null or unparsable; any other length must equal the expected length or fails with both lengths; otherwise a series of exactly the expected length whose entries are the row parses |
| Argument.ResolvedValueAt | src/expressions.rs:81-106 | once resolved, the argument gives row i the parsed literal if the column had one row, otherwise the parse of its own row i |
| Argument.ResolveFailsOnlyOnLiteralOrLength | src/expressions.rs:81-99 | resolution fails iff the single literal row gives no network, or the length is neither 1 nor the expected length |
| Expressions.RowOutcome | src/expressions.rs:24-29 | a row is null iff the row or the argument at that row gives no network; otherwise it is the containment test with the row as supernet for contains and as subnet for subnet_of |
| Expressions.BuildColumn | src/expressions.rs:22-30 | the loop yields one entry per input row, entry i being the outcome for row i and the argument at i |
| Expressions.CidrContains | src/expressions.rs:11-33 | the method's result equals the specification `Evaluate` for the contains direction |
| Expressions.CidrSubnetOf | src/expressions.rs:36-58 | the method's result equals the specification `Evaluate` for the subnet_of direction |
| Expressions.EvaluateArity | src/expressions.rs:12-15 | an input count other than 2 is an arity error, and only such a count gives one |
| Expressions.EvaluateFailsWithArgument | src/expressions.rs:17-20 | with two inputs the expression fails iff the argument fails to resolve, and with the argument's error |
| Expressions.EvaluateRows | src/expressions.rs:22-30 | on success there were two inputs and the output has one entry per row; entry i is the outcome for the parsed row i and the argument entry seen at i |
| Expressions.SubnetOfIsSwappedContains | src/expressions.rs:36-58 | for two per-row columns of equal length, subnet_of(y, x) and contains(x, y) give the same column |
| Expressions.SubnetOfZeroPrefixLiteral | src/expressions.rs:45-55 | against a /0 literal supernet, every row holding a network of the same family yields true |

## Left out

- Text parsing of IPv4, IPv6 and CIDR notation belongs to the `ipnetwork` crate, which is not part of this model. It is the `parse` parameter.
- `ipnetwork`'s `network()` is modelled as the address masked by the prefix mask, with the masks of this file.
- Polars plumbing is left out: `Series`, `StringChunked`, `BooleanChunkedBuilder`, the output column's name and the `#[polars_expr]` attribute. Columns are sequences of optional strings or booleans.
- The dtype error that `str()?` raises on a non-string column is left out. Columns are string columns by construction.
- Error message text is left out. Errors are four variants:
  - `Arity` carries the number of inputs received. The Rust messages do not report that number.
  - `NullLiteral` carries the argument name.
  - `InvalidLiteral` carries the argument name and the text that failed to parse.
  - `LengthMismatch` carries the argument name, the expected length and the column's length.
- The expression name in the arity message (`cidr.contains` or `cidr.subnet_of`) is left out. `Arity` does not carry it.
- The parser's own error, which the invalid-literal message reports, is left out. The `parse` parameter returns only `None` on failure.
- `register` and `src/lib.rs` are PyO3 module wiring with no logic, and are left out.
- PrefixMask.Ipv4PrefixMask: takes only prefixes up to 32, and `Ipv6PrefixMask` only up to 128. The Rust functions accept any `u8`, but every prefix they receive comes from an `ipnetwork` network, which never exceeds its family's width. A larger prefix would overflow the Rust shift.
- Expressions.SubnetOfIsSwappedContains: covers only two per-row columns of equal length. With a one-row literal argument the swapped call has a different shape: the literal becomes the row column.
- Indices and lengths are unbounded naturals rather than `usize`. No index in the core comes near the limit.
