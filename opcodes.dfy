/** EVM opcode values and the instruction layout of EVM bytecode
    (Ethereum Yellow Paper, Appendix H.2). */
module Opcodes {

  /** One byte of bytecode. */
  newtype byte = x: int | 0 <= x < 0x100

  const OpPop: byte := 0x50
  const OpPush1: byte := 0x60
  const OpPush31: byte := 0x7e
  const OpPush32: byte := 0x7f

  /** PUSH1 .. PUSH32: the opcodes that carry immediate data in the code. */
  predicate IsPush(op: byte) {
    OpPush1 <= op <= OpPush32
  }

  /** How many immediate bytes follow `op` in the code: n for PUSHn, none otherwise. */
  function ImmediateSize(op: byte): (n: nat)
    ensures n <= 32
    ensures n == 0 <==> !IsPush(op)
  {
    if IsPush(op) then (op - OpPush1) as nat + 1 else 0
  }

  /** The opcodes met when `code` is decoded instruction by instruction from
      offset `pc`: each push skips its immediate bytes. */
  function Instructions(code: seq<byte>, pc: nat): (ops: seq<byte>)
    decreases |code| - pc
  {
    if pc >= |code| then []
    else [code[pc]] + Instructions(code, pc + 1 + ImmediateSize(code[pc]))
  }

  /** Decoding `code` from `pc` never meets a push whose immediate bytes run
      past the end of the code. */
  predicate NoTruncatedPush(code: seq<byte>, pc: nat)
    decreases |code| - pc
  {
    pc < |code| ==>
      var next := pc + 1 + ImmediateSize(code[pc]);
      next <= |code| && NoTruncatedPush(code, next)
  }

  /** One decoding step: the opcode at `pc`, then decoding resumes after
      its immediate data. */
  lemma InstructionsStep(code: seq<byte>, pc: nat, n: nat)
    requires pc < |code| && n == ImmediateSize(code[pc])
    ensures Instructions(code, pc) == [code[pc]] + Instructions(code, pc + 1 + n)
  {
  }

  /** One decoding step of the well-formedness walk. */
  lemma NoTruncatedPushStep(code: seq<byte>, pc: nat, n: nat)
    requires pc < |code| && n == ImmediateSize(code[pc])
    ensures NoTruncatedPush(code, pc) <==> pc + 1 + n <= |code| && NoTruncatedPush(code, pc + 1 + n)
  {
  }
}
