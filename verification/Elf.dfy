/** What the loader reads from a relocatable object: sections, symbols and RELA entries. */
module Elf {
  import opened Insn
  import opened Memory
  import opened Reloc

  datatype Flag = Write | Alloc | ExecInstr | RoAfterInit

  datatype SectionType = PROGBITS | NOBITS | SYMTAB | RELA | INIT_ARRAY | OTHER

  datatype Rela = Rela(offset: u64, symbol: nat, t: RelocType, addend: int)

  /** data holds the file bytes of the section, relas the entries of a RELA section, info the
      section those entries patch. */
  datatype Section = Section(
    name: string, kind: SectionType, flags: set<Flag>, align: u64, size: u64,
    data: seq<byte>, info: nat, relas: seq<Rela>)

  datatype Bind = LOCAL | GLOBAL | WEAK

  /** The section index of a symbol: none, an ordinary one, or a reserved one. */
  datatype Index = UNDEF | At(sec: nat) | RESERVED

  datatype Symbol = Symbol(name: string, value: u64, bind: Bind, isSection: bool, index: Index)
}
