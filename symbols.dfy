/** The symbol table type of src/assembler/symbols.rs: label name to offset and kind. */
module Symbols {
  import opened Base

  datatype SymbolType = Label | Integer | String

  datatype SymbolInfo = SymbolInfo(offset: UInt32, symbolType: SymbolType)

  type SymbolTable = map<string, SymbolInfo>

  /** `SymbolTable::new()`. */
  const EMPTY: SymbolTable := map[]
}
