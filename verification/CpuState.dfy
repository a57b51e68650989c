/** The processor's register file and memory, for any representation of words and memory. */
module CpuState {

  const FP: nat := 9
  const AP: nat := 10
  const PSW: nat := 11
  const SP: nat := 12
  const PCBP: nat := 13
  const ISP: nat := 14
  const PC: nat := 15

  datatype State<W, M> = State(regs: seq<W>, mem: M)
}
