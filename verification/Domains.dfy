/** The documented values of members (crates/stm32wb-catalog/src/domain.rs). */
module Domains {
  import opened Options

  /** One documented value or inclusive range, with the hexadecimal digits it is written
      with, or none for decimal, and its label. */
  datatype DomainItem = DomainItem(first: int, last: int, hexDigits: Option<nat>, text: Option<string>)

  datatype Kind = Values | Flags

  datatype Domain = Domain(kind: Kind, items: seq<DomainItem>, unitUs: Option<nat>)
}
