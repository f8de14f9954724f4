/**
 * rotate_left and rotate_right: one window of bytes rewritten in place, with the
 * certified write-back range they report. Both read one extra byte from the
 * opposite end of the file when the window touches the end that needs it.
 */
module RotateStep {
  import opened Results
  import opened ByteRotate

  /** The fatal read conditions the rotator reports before exiting. */
  datatype IoError =
    | UnexpectedReadError   // the one-byte pread of a rotation step failed
    | InputReadError        // a pread of the windowing driver returned 0 or -1

  /**
   * A rewritten window and the sub-range `[writeOff, writeOff + writeSize)` of
   * it that is fully computed and safe to write back.
   */
  datatype Certified = Certified(buffer: seq<Byte>, writeOff: nat, writeSize: nat)

  /**
   * pread(fd, &b, 1, off) on a file holding `file`: the byte at `off`, or a
   * failure when `off` is negative or at or past the end of the file.
   */
  function PreadByte(file: seq<Byte>, off: int): Option<Byte>
  {
    if 0 <= off < |file| then Some(file[off]) else None
  }

  /**
   * rotate_left: the window holds the `|window|` bytes read at file offset
   * `foffset` of a file of `filesize` bytes; `file` is what pread sees.
   */
  method RotateLeftStep(file: seq<Byte>, filesize: nat, foffset: nat, window: seq<Byte>)
    returns (r: Result<Certified, IoError>)
    requires |window| >= 1
    ensures r.Err? <==> foffset + |window| == filesize && |file| == 0
    ensures r.Ok? ==> |r.value.buffer| == |window| && r.value.writeOff == 0
    ensures r.Ok? ==> r.value.writeSize == if foffset + |window| == filesize then |window| else |window| - 1
    ensures r.Ok? ==> forall i | 0 <= i < |window| - 1 ::
      r.value.buffer[i] == RotateLeftByte(window[i], window[i + 1])
    ensures r.Ok? && foffset + |window| == filesize ==>
      r.value.buffer[|window| - 1] == RotateLeftByte(window[|window| - 1], file[0])
  {
    var buffer := window;
    var i := 0;
    while i < |window| - 1
      invariant 0 <= i <= |window| - 1
      invariant |buffer| == |window|
      invariant forall k | 0 <= k < i :: buffer[k] == RotateLeftByte(window[k], window[k + 1])
      invariant forall k | i <= k < |window| :: buffer[k] == window[k]
    {
      buffer := buffer[i := RotateLeftByte(buffer[i], buffer[i + 1])];
      i := i + 1;
    }
    if foffset + i == filesize - 1 {
      var first := PreadByte(file, 0);
      if first.None? {
        return Err(UnexpectedReadError);
      }
      buffer := buffer[i := RotateLeftByte(buffer[i], first.value)];
      i := i + 1;
    }
    return Ok(Certified(buffer, 0, i));
  }

  /**
   * rotate_right: the window holds the `|window|` bytes read at file offset
   * `foffset` of a file of `filesize` bytes; `file` is what pread sees.
   */
  method RotateRightStep(file: seq<Byte>, filesize: nat, foffset: nat, window: seq<Byte>)
    returns (r: Result<Certified, IoError>)
    requires |window| >= 1
    ensures r.Err? <==> foffset == 0 && !(0 < filesize <= |file|)
    ensures r.Ok? ==> |r.value.buffer| == |window|
    ensures r.Ok? ==> forall i | 0 < i < |window| ::
      r.value.buffer[i] == RotateRightByte(window[i], window[i - 1])
    ensures r.Ok? && foffset == 0 ==>
      r.value.writeOff == 0 && r.value.writeSize == |window| &&
      r.value.buffer[0] == RotateRightByte(window[0], file[filesize - 1])
    ensures r.Ok? && foffset != 0 ==> r.value.writeOff == 1 && r.value.writeSize == |window| - 1
  {
    var buffer := window;
    var i := |window| - 1;
    while i > 0
      invariant 0 <= i <= |window| - 1
      invariant |buffer| == |window|
      invariant forall k | i < k < |window| :: buffer[k] == RotateRightByte(window[k], window[k - 1])
      invariant forall k | 0 <= k <= i :: buffer[k] == window[k]
    {
      buffer := buffer[i := RotateRightByte(buffer[i], buffer[i - 1])];
      i := i - 1;
    }
    if foffset == 0 {
      var last := PreadByte(file, filesize - 1);
      if last.None? {
        return Err(UnexpectedReadError);
      }
      buffer := buffer[0 := RotateRightByte(buffer[0], last.value)];
      return Ok(Certified(buffer, 0, |window|));
    } else {
      return Ok(Certified(buffer, 1, |window| - 1));
    }
  }
}
