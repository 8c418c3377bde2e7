// Where output goes (lib/io.c): the callback that every printing function takes.
module Output {
  import opened Bytes
  import opened Storage

  // The output callback: it appends and does not fail.
  class Sink {
    var data: bytes

    constructor ()
      ensures data == []
    {
      data := [];
    }

    method Write(b: bytes)
      modifies this
      ensures data == old(data) + b
    {
      data := data + b;
    }

    // _bijson_writer_write_compact_int
    method WriteCompactInt(u: nat, width: nat)
      requires width < 4
      modifies this
      ensures data == old(data) + LittleEndian(u, WidthBytes(width))
    {
      var buf := WriteMinimalInt(u, WidthBytes(width));
      Write(buf);
    }
  }
}
