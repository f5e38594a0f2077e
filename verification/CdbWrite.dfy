// The buffered writer of contrib/cdb/cdb_make.c over a file.
module CdbWrite {
  import opened Common
  import opened CdbFormat
  import opened CdbIndex

  const BUFSIZE: nat := 4096

  function Max(a: nat, b: nat): nat {
    if a < b then b else a
  }

  /** The file after data was written at pos. */
  function Overwrite(file: seq<Byte>, pos: nat, data: seq<Byte>): (r: seq<Byte>)
    requires pos <= |file|
    ensures pos + |data| <= |r| && r[..pos + |data|] == file[..pos] + data
    ensures |r| == Max(|file|, pos + |data|)
  {
    file[..pos] + data + if pos + |data| < |file| then file[pos + |data|..] else []
  }

  /** struct cdb_make: the file, the bytes not yet written to it, and the record lists. */
  class Maker {
    var file: seq<Byte>
    var fpos: nat
    /** cdb_buf up to cdb_bpos. */
    var pending: seq<Byte>
    var dpos: nat
    var rcnt: nat
    var rec: seq<seq<Block>>

    /** Everything written so far. */
    ghost function Content(): seq<Byte>
      requires fpos <= |file|
      reads this
    {
      file[..fpos] + pending
    }

    ghost predicate Buffered()
      reads this
    {
      fpos <= |file| && |pending| <= BUFSIZE && dpos == fpos + |pending|
    }

    /** cdb_make_start on a file that may hold anything: the header's place is in the buffer. */
    constructor (start: seq<Byte>)
      ensures file == start && Buffered() && Content() == seq(HEADER, _ => 0) && rcnt == 0
      ensures rec == seq(256, _ => [])
    {
      file, fpos, dpos, rcnt := start, 0, HEADER, 0;
      pending := seq(HEADER, _ => 0);
      rec := seq(256, _ => []);
    }

    /** _cdb_make_fullwrite, all of it at the file's position. */
    method FullWrite(data: seq<Byte>)
      requires fpos <= |file|
      modifies `file, `fpos
      ensures file == Overwrite(old(file), old(fpos), data) && fpos == old(fpos) + |data| <= |file|
    {
      file := Overwrite(file, fpos, data);
      fpos := fpos + |data|;
    }

    /** _cdb_make_flush. */
    method Flush()
      requires Buffered()
      modifies `file, `fpos, `pending
      ensures Buffered() && pending == [] && Content() == old(Content())
      ensures file[..fpos] == old(Content()) && |file| == Max(old(|file|), fpos)
    {
      if pending != [] {
        FullWrite(pending);
        pending := [];
      }
    }

    /** _cdb_make_write: the buffer is filled and flushed, whole buffers go straight to the file, the rest stays. */
    method Write(data: seq<Byte>)
      requires Buffered()
      modifies `file, `fpos, `pending, `dpos
      ensures Buffered() && Content() == old(Content()) + data
      ensures |file| <= Max(old(|file|), |Content()|)
    {
      var room := BUFSIZE - |pending|;
      var rest := data;
      dpos := dpos + |data|;
      if |rest| > room {
        pending := pending + rest[..room];
        FullWrite(pending);
        pending := [];
        rest := rest[room..];
        var whole := |rest| / BUFSIZE * BUFSIZE;
        if whole > 0 {
          FullWrite(rest[..whole]);
          rest := rest[whole..];
        }
      }
      pending := pending + rest;
    }
  }
}
