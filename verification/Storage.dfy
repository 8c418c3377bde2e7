// Choice of integer widths in the file format (lib/writer.h).
module Storage {
  import opened Bytes

  // _bijson_optimal_storage_size
  function StorageSize(len: nat): (w: nat)
    ensures w < 4
  {
    if len > 65535 then
      if len > 4294967295 then 3 else 2
    else
      if len > 255 then 1 else 0
  }

  // _bijson_optimal_storage_size1
  function StorageSize1(len: nat): (w: nat)
    ensures w < 4
  {
    if len > 65536 then
      if len > 4294967296 then 3 else 2
    else
      if len > 256 then 1 else 0
  }

  // _bijson_optimal_storage_size_bytes
  function WidthBytes(w: nat): (n: nat)
    requires w < 4
    ensures n == 1 || n == 2 || n == 4 || n == 8
  {
    if w == 0 then 1 else if w == 1 then 2 else if w == 2 then 4 else 8
  }

  function Width(len: nat): (n: nat)
    ensures n == 1 || n == 2 || n == 4 || n == 8
  {
    WidthBytes(StorageSize(len))
  }

  // The chosen width holds the value, and no smaller width does.
  lemma {:induction false} StorageSizeIsLeast(len: nat, w: nat)
    requires len <= SIZE_MAX && w < 4
    ensures len < Pow256(WidthBytes(w)) <==> StorageSize(len) <= w
  {
    Pow256Values();
  }

  // A stored count is one less than the count, so both passes pick the same width.
  lemma {:induction false} StorageSizesAgree(count: nat)
    requires count > 0
    ensures StorageSize1(count) == StorageSize(count - 1)
  {
  }

  lemma {:induction false} WidthHolds(len: nat, max: nat)
    requires len <= max <= SIZE_MAX
    ensures FromLittleEndian(LittleEndian(len, Width(max))) == len
  {
    StorageSizeIsLeast(max, StorageSize(max));
    LittleEndianHolds(len, Width(max));
  }
}
