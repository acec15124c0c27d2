# Synthetic benchmark bytecode generator (evmone)

This project models `generate_code`, the bytecode generator of evmone's
synthetic benchmarks, and proves properties of it in Dafny.

The generator takes an opcode and a mode. It knows one mode, `interleaved`.
It first builds one pattern:
- the opcode;
- then, if the opcode is PUSH1..PUSH32, as many zero bytes as that push
  carries as immediate data;
- then POP.

It then appends that pattern to an empty code buffer once for every whole
pattern that fits in the code size limit of 25 × 1024 = 25600 bytes.
Opcode values follow the Ethereum Yellow Paper, Appendix H.2:
POP = 0x50, PUSH1 = 0x60, PUSH31 = 0x7e, PUSH32 = 0x7f.

Files:
- `opcodes.dfy`, module `Opcodes`: the byte type, the opcode constants, the
  immediate size of each opcode, and a reference decoder. The decoder
  (`Instructions`, `NoTruncatedPush`) walks EVM code instruction by
  instruction, skipping push data. It states what "well formed" means.
- `synthetic_bench.dfy`, module `SyntheticBench`: the code size limit, `Mode`,
  the specification functions `Pattern`, `PatternCount`, `Repeat` and
  `GeneratedCode`, the imperative `GenerateCode` method proved against them,
  and the lemmas about the generated code.

`GenerateCode` keeps the source's imperative form. The pattern and the code
are local sequences grown by appends. `std::fill_n` through a
`back_inserter` becomes a loop of single-byte appends. The
`while (num_patterns-- != 0)` loop becomes a loop that decrements a counter
and appends the pattern. Its invariant says that after `k` passes the code
holds `k` copies of the pattern. A ghost out-parameter counts the passes.

## Model

| member | source | states |
|---|---|---|
| SyntheticBench.GenerateCode | test/bench/synthetic_bench.cpp:20-40 | The returned code equals `GeneratedCode(opcode, mode)`, so it depends only on the opcode and the mode. The repeating loop runs exactly `PatternCount(opcode, mode)` = code_size_limit / pattern length times. |
| SyntheticBench.PatternLayout | test/bench/synthetic_bench.cpp:25-29 | The pattern is 2 bytes long for a non-push opcode and n + 2 bytes for PUSHn, where n = opcode − PUSH1 + 1. A sequence is the pattern exactly when it has that length, starts with the opcode, ends with POP and is zero strictly in between. |
| Opcodes.ImmediateSize | test/bench/synthetic_bench.cpp:27-28 | An opcode has immediate data exactly when it is PUSH1..PUSH32, and never more than 32 bytes of it. |
| SyntheticBench.RepeatLength | test/bench/synthetic_bench.cpp:36-37 | After `k` appends of a pattern, the code holds exactly `k` times the pattern length. |
| SyntheticBench.RepeatBlock | test/bench/synthetic_bench.cpp:36-37 | Copy `j` of the pattern occupies the offsets from `j` times the pattern length up to one pattern length further, and holds the pattern there. |
| SyntheticBench.RepeatCons | test/bench/synthetic_bench.cpp:36-37 | Appending the pattern `k + 1` times gives the pattern followed by `k` appends, so the code can be read from the front one pattern at a time. |
| SyntheticBench.RepeatAt | test/bench/synthetic_bench.cpp:36-37 | Byte `i` of `k` appended copies is the pattern byte at `i` modulo the pattern length. |
| SyntheticBench.CodeLength | test/bench/synthetic_bench.cpp:33-37 | The code length is exactly (25600 / pattern length) times the pattern length, with integer division. It never exceeds 25600 (`code_size_limit`, line 12) and is greater than 25600 minus the pattern length, so as many whole patterns as fit are emitted. |
| SyntheticBench.CodePeriodic | test/bench/synthetic_bench.cpp:33-37 | Every byte `i` of the code equals the pattern byte at `i` modulo the pattern length. |
| SyntheticBench.CopyLayout | test/bench/synthetic_bench.cpp:26-37 | In any number of appended copies of a pattern for an opcode, copy `j` holds the opcode, then its immediate bytes, all zero, then POP, all inside the code. |
| SyntheticBench.CopyZeros | test/bench/synthetic_bench.cpp:28 | The immediate bytes of every copy of the pattern lie inside the code and are zero. |
| SyntheticBench.BoundaryImmediatesInside | test/bench/synthetic_bench.cpp:26-37 | At the start of every copy of the pattern the generated code holds the opcode. The opcode's n immediate bytes follow, all zero, and then POP, all inside the code. |
| SyntheticBench.DecodeStep | test/bench/synthetic_bench.cpp:26-29 | Decoding the opcode of a pattern and, after its immediate data, the POP yields exactly those two opcodes and resumes after the POP. |
| SyntheticBench.WalkStep | test/bench/synthetic_bench.cpp:26-29 | That same decoding step never meets a truncated push. |
| SyntheticBench.DecodeRepeat | test/bench/synthetic_bench.cpp:26-37 | Decoding appended copies of a pattern from the start of copy `j` never meets a truncated push. It meets the opcode and POP in turn, once for each remaining copy. |
| SyntheticBench.CodeWellFormed | test/bench/synthetic_bench.cpp:20-40 | Decoded from offset 0, the generated code is the opcode and POP interleaved, once per pattern, and no PUSH immediate runs past the end of the code. |
| SyntheticBench.BenchmarkSizes | test/bench/synthetic_bench.cpp:77-100 | Pattern size, repetitions and total length for the opcodes the benchmarks register. PUSH1 gives 3, 8533 and 25599. PUSH31 gives 33, 775 and 25575. PUSH32 gives 34, 752 and 25568. Any non-push opcode gives 2, 12800 and 25600. |

## Left out

- The benchmark bodies `analyse` and `execute` (test/bench/synthetic_bench.cpp:42-72, test/bench/helpers.hpp:18-56) are left out. They only call evmone's analyzer and `vm.execute`, which are not part of this model. Their counters are floating-point timing rates.
- Benchmark registration (`register_synthetic_benchmarks`, test/bench/synthetic_bench.cpp:75-101) is framework glue and is left out. Only the opcodes it passes to the generator appear, in `BenchmarkSizes`.
- test/bench/vm.hpp declares an external VM object and the gas limit constant and has no logic. The `gas_used` bookkeeping depends on the foreign VM's result. Both are left out.
- The bytecode analyzer and the interpreter (`evmone/analysis.hpp`, the `evmc::VM` implementation) are not part of this model. The decoder in `Opcodes` only describes instruction boundaries and push data. It does not model analysis results, gas or execution.
- `code.reserve(...)` changes only the buffer's capacity, not its contents, so it is not modelled.
- After the last pass, the post-decrement in `while (num_patterns-- != 0)` wraps the unsigned counter around. Nothing reads the counter afterwards, so the model's loop stops at zero instead.
