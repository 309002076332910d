/** Vocabulary shared by every component. */
module Common {
  type UUID = string

  datatype Option<+T> = None | Some(value: T)

  /** Go's uint32. */
  const WORD: nat := 0x1_0000_0000
  type U32 = n: int | 0 <= n < 0x1_0000_0000

  function Add32(a: U32, b: U32): U32 { (a + b) % WORD }
  function Sub32(a: U32, b: U32): U32 { (a - b) % WORD }

  /** client/cms.go: what CMS answers to a successful request. */
  datatype CmsResponse = CmsResponse(ip: string, mac: string, sdn: string)

  /** The index of the first statement of a transaction that the database refuses, if any.
      A transaction stops at its first refused statement, so one index describes every failing run. */
  type Fault = Option<nat>

  predicate Strikes(fault: Fault, statement: nat) { fault == Some(statement) }

  /** True if the fault hits one of the first n statements. */
  predicate StrikesBefore(fault: Fault, n: nat) { fault.Some? && fault.value < n }
}
