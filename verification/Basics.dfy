/** Bytes, sizes, statuses and limits shared by every part of the bridge. */
module Basics {

  newtype byte = x: int | 0 <= x < 256

  /** One byte of storage: memory that nobody has written yet is `Junk`. */
  datatype Cell = Junk | Byte(value: byte)

  /** The statuses of bridge.h that the modelled paths can produce. */
  datatype Status =
    | Invalid
    | Limit
    | Alloc
    | BadOption
    | Zstd(code: nat)

  datatype Result<+T> = Ok(value: T) | Err(status: Status)

  datatype Maybe<+T> = None | Some(get: T)

  const RAW_MAX: nat := 256 * 1024 * 1024
  const PAYLOAD_MAX: nat := 512 * 1024 * 1024 - 96
  const FRAME_MAX: nat := 1024 * 1024 * 1024
  const CHUNK: nat := 65536
  const HDIFF_WINDOW_LOG_MAX: nat := 23
  const ZSTD_WINDOW_LOG_MAX: nat := 30

  /** ZSTD_error_memory_allocation of zstd_errors.h. */
  const ZSTD_MEMORY_ALLOCATION: nat := 64

  function Min(a: nat, b: nat): nat { if a <= b then a else b }

  function Max(a: nat, b: nat): nat { if a >= b then a else b }

  /** How `zcheck` reports a zstd error code. */
  function ZStatus(code: nat): (r: Status)
    ensures r == Alloc <==> code == 64
    ensures code != 64 ==> r == Zstd(code)
  {
    if code == ZSTD_MEMORY_ALLOCATION then Alloc else Zstd(code)
  }

  /** Storage that holds exactly the bytes of `s`. */
  function Cells(s: seq<byte>): (r: seq<Cell>)
    ensures |r| == |s|
    ensures forall i :: 0 <= i < |s| ==> r[i] == Byte(s[i])
  {
    seq(|s|, i requires 0 <= i < |s| => Byte(s[i]))
  }

  /** Two's powers, for window sizes. */
  function Pow2(n: nat): (r: nat)
    ensures r >= 1
  {
    if n == 0 then 1 else 2 * Pow2(n - 1)
  }
}
