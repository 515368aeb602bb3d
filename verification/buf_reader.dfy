/** A `BufReader` over a file, as the column reader uses it: the file's bytes
    and a stream position that `read_exact`, `read_u8` and relative seeks
    move. The functions describe each operation on (bytes, position); the
    class methods perform it on the reader and are proved to agree. */
module Io {
  import opened Bytes
  import opened Outcomes

  /** What an operation yields and the stream position it leaves behind. */
  datatype Step<+T> = Step(result: Result<T>, next: nat)

  function Max(a: nat, b: nat): nat {
    if a < b then b else a
  }

  /** The bytes from `pos` to the end of the file. */
  function Remaining(data: seq<Byte>, pos: nat): seq<Byte> {
    if pos <= |data| then data[pos..] else []
  }

  /** `read_exact` of `n` bytes at position `pos` in a file holding `data`.
      An empty request always succeeds. A request that finds fewer than `n`
      bytes consumes what is left and fails with `UnexpectedEof`. */
  function ReadExactAt(data: seq<Byte>, pos: nat, n: nat): (s: Step<seq<Byte>>)
    ensures s.result.Ok? <==> n == 0 || pos + n <= |data|
    ensures s.result.Ok? ==> |s.result.value| == n && s.next == pos + n
    ensures s.result.Ok? ==> s.result.value == Remaining(data, pos)[..n]
    ensures s.result.Err? ==> s.result.error == UnexpectedEof && s.next == Max(pos, |data|)
  {
    if n == 0 then Step(Ok([]), pos)
    else if pos + n <= |data| then Step(Ok(data[pos..pos + n]), pos + n)
    else Step(Err(UnexpectedEof), Max(pos, |data|))
  }

  /** `read_u8`: a one-byte `read_exact`. */
  function ReadU8At(data: seq<Byte>, pos: nat): (s: Step<Byte>)
    ensures s.result.Ok? <==> pos < |data|
    ensures s.result.Ok? ==> s.result.value == data[pos] && s.next == pos + 1
    ensures s.result.Err? ==> s.result.error == UnexpectedEof && s.next == Max(pos, |data|)
  {
    var r := ReadExactAt(data, pos, 1);
    match r.result
    case Ok(b) => Step(Ok(b[0]), r.next)
    case Err(e) => Step(Err(e), r.next)
  }

  /** `seek(SeekFrom::Current(offset))`: moving before the start of the file
      is refused and leaves the position alone; moving past its end is allowed. */
  function SeekCurrentAt(pos: nat, offset: int): (s: Step<nat>)
    ensures s.result.Ok? <==> pos + offset >= 0
    ensures s.result.Ok? ==> s.result.value == pos + offset && s.next == pos + offset
    ensures s.result.Err? ==> s.result.error == InvalidSeek && s.next == pos
  {
    if pos + offset < 0 then Step(Err(InvalidSeek), pos)
    else Step(Ok(pos + offset), pos + offset)
  }

  class BufReader {
    /** The bytes of the underlying file. */
    const data: seq<Byte>
    /** The stream position. */
    var pos: nat

    constructor (contents: seq<Byte>)
      ensures data == contents && pos == 0
    {
      data := contents;
      pos := 0;
    }

    /** `read_exact(buf)`: fills `buf` from the stream. On a short read the
        bytes that were left are copied to the front of `buf` and the rest of
        `buf` keeps its old contents. */
    method ReadExact(buf: array<Byte>) returns (r: Result<()>)
      modifies this, buf
      ensures var s := ReadExactAt(data, old(pos), buf.Length);
        pos == s.next && (r.Ok? <==> s.result.Ok?) && (r.Err? ==> r.error == s.result.error)
      ensures r.Ok? ==> buf[..] == ReadExactAt(data, old(pos), buf.Length).result.value
      ensures r.Err? ==> var left := Remaining(data, old(pos));
        |left| < buf.Length && buf[..] == left + old(buf[..])[|left|..]
    {
      var n := buf.Length;
      if n == 0 {
        r := Ok(());
      } else if pos + n <= |data| {
        forall i | 0 <= i < n {
          buf[i] := data[pos + i];
        }
        pos := pos + n;
        r := Ok(());
      } else {
        if pos <= |data| {
          var avail := |data| - pos;
          forall i | 0 <= i < avail {
            buf[i] := data[pos + i];
          }
          assert buf[..] == Remaining(data, old(pos)) + old(buf[..])[avail..];
          pos := |data|;
        }
        r := Err(UnexpectedEof);
      }
    }

    /** `read_u8`. */
    method ReadU8() returns (r: Result<Byte>)
      modifies this
      ensures Step(r, pos) == ReadU8At(data, old(pos))
    {
      var buf := new Byte[1];
      var ok := ReadExact(buf);
      if ok.Err? {
        return Err(ok.error);
      }
      r := Ok(buf[0]);
    }

    /** `seek(SeekFrom::Current(offset))`, returning the new position. */
    method SeekCurrent(offset: int) returns (r: Result<nat>)
      modifies this
      ensures Step(r, pos) == SeekCurrentAt(old(pos), offset)
    {
      if pos + offset < 0 {
        r := Err(InvalidSeek);
      } else {
        pos := pos + offset;
        r := Ok(pos);
      }
    }
  }
}
