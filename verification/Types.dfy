/** Integer widths, protocol constants and the record types shared by all modules. */
module Types {

  type u8 = x: int | 0 <= x < 0x100
  type u16 = x: int | 0 <= x < 0x1_0000
  type u32 = x: int | 0 <= x < 0x1_0000_0000
  type u64 = x: int | 0 <= x < 0x1_0000_0000_0000_0000

  /** A C++ `std::string` or byte vector: uninterpreted bytes. */
  type Bytes = seq<u8>

  const EOK: int := 0
  const ENOENT: int := 2
  const EIO: int := 5
  const EINVAL: int := 22
  const ENOSPC: int := 28
  const ENOTSUP: int := 48
  const ENOSYS: int := 89

  const MAX_MESSAGE_SIZE: u32 := 131072
  const NO_FID: u32 := 0xFFFF_FFFF
  const NO_TAG: u16 := 0xFFFF
  const HEADER_SIZE: nat := 7

  /** "9P2000.L" */
  const PROTOCOL_VERSION: Bytes := [57, 80, 50, 48, 48, 48, 46, 76]

  datatype Option<+T> = None | Some(value: T)

  datatype Qid = Qid(kind: u8, version: u32, path: u64)

  datatype DirEntry = DirEntry(qid: Qid, offset: u64, kind: u8, name: Bytes)

  function Min(a: nat, b: nat): nat {
    if a < b then a else b
  }

  function Zeros(n: nat): (z: Bytes)
    ensures |z| == n
  {
    seq(n, _ => 0)
  }

  /** No element occurs twice. */
  ghost predicate Distinct<T>(s: seq<T>) {
    forall i, j :: 0 <= i < j < |s| ==> s[i] != s[j]
  }
}
