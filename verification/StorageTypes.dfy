/** Entities shared by the storage engine's components. */
module StorageTypes {

  /** A page identifier is a 64-bit value; the largest one stands for "no page". */
  type PageId = nat

  const INVALID: PageId := 0xFFFF_FFFF_FFFF_FFFF

  /** Number of application pages the allocation catalog can describe: (4096 - 24) * 8. */
  const CATALOG_BITS: nat := 32576

  type Byte = b: int | 0 <= b < 256
  type Bytes = seq<Byte>

  /** Bytes of a page that belong to the application: 4096 minus the 32-byte envelope. */
  const PAYLOAD_SIZE: nat := 4064

  /** A page as its users see it: payload and the LSN of the last logged change. */
  datatype Page = Page(data: Bytes, lsn: nat)

  datatype RecordId = RecordId(page: PageId, slot: nat)

  datatype Option<+T> = None | Some(value: T)
}
