/** The records the message-passing analyzer passes between its phases. */
module Types {
  import opened Wrappers

  /** The identity of an LLVM call or invoke instruction; only compared. */
  type InstrId = nat

  /** A send or receive site: the instruction, the transmitted type's name
      and the namespace of the function that contains it. */
  datatype MessagingNode = MessagingNode(instr: InstrId, typeName: string, nspace: string)

  /** `itaniumDemangle`, a foreign call: the demangled name, or `None` when
      it reports a non-zero status. */
  type Demangler = string -> Option<string>
}
