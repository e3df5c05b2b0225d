/** The instruction stream of the intermediate code, by operand class. */
module Icode {

  /** A local named by an instruction. `Special` stands for the zero and frame-pointer names,
      which no analysis tracks. */
  datatype Local = IntVar(id: nat) | FpVar(id: nat) | Special

  /** One instruction: what it reads, what it writes and where control goes. Calls without a
      result, and stores, write `Special`. */
  datatype Insn =
    | Compute(srcs: seq<Local>, dst: Local)   // arithmetic, loads, moves, constants
    | Lea(src: Local, dst: Local)             // dst := address of src
    | Effect(srcs: seq<Local>)                // stores, arguments, block copies, hints
    | Call(srcs: seq<Local>, dst: Local)
    | Branch(srcs: seq<Local>, target: nat)   // conditional
    | Goto(target: nat)
    | Ret(srcs: seq<Local>)
    | Label(name: nat)
  {
    /** The operands in reading order. */
    function Reads(): seq<Local> {
      match this
      case Compute(srcs, _) => srcs
      case Lea(src, _) => [src]
      case Effect(srcs) => srcs
      case Call(srcs, _) => srcs
      case Branch(srcs, _) => srcs
      case Goto(_) => []
      case Ret(srcs) => srcs
      case Label(_) => []
    }

    function Writes(): Local {
      match this
      case Compute(_, dst) => dst
      case Lea(_, dst) => dst
      case Call(_, dst) => dst
      case _ => Special
    }

    /** Tracked locals that are read. */
    function Uses(): set<Local> {
      set v | v in Reads() && v != Special
    }

    /** The tracked local that is written, if any. */
    function Defs(): set<Local> {
      if Writes() == Special then {} else {Writes()}
    }

    /** A basic block ends at this instruction. */
    predicate EndsBlock() {
      Call? || Branch? || Goto? || Ret?
    }

    /** Control may continue with the next instruction. */
    predicate FallsThrough() {
      !Goto? && !Ret?
    }

    predicate Jumps() {
      Branch? || Goto?
    }
  }
}
