/** The eight opcodes of the language and the two parse errors (src/main.rs:12-40). */
module Commands {
  datatype Command = Add | Sub | Input | Output | Left | Right | Loop | Pool

  datatype ParserError = InvalidFingers | IncompleteHeart

  /** An opcode that is neither bracket: it is executed by one step of the machine. */
  predicate Straight(c: Command) {
    !c.Loop? && !c.Pool?
  }

  /** A byte, the value of one tape cell or of one input or output item. */
  type Byte = b: int | 0 <= b < 256
}
