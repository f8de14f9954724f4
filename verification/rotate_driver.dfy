/**
 * rotate(): the windowing driver. A window of at most `bufsize` bytes slides
 * across the input; each window is handed to the rotation step of the chosen
 * direction, the certified range it reports is appended to the output, and the
 * next window starts on the last byte of this one.
 */
module RotateDriver {
  import opened Results
  import opened ByteRotate
  import opened GlobalRotation
  import opened RotateStep

  function Min(a: nat, b: nat): nat
  {
    if a < b then a else b
  }

  /** A range of file offsets `[start, start + size)` written to the output by one iteration. */
  datatype Range = Range(start: nat, size: nat)

  /** `rs` are non-empty ranges, each starting where the previous one ended, from `lo` up to `hi`. */
  predicate Tiles(rs: seq<Range>, lo: nat, hi: nat)
    decreases |rs|
  {
    if |rs| == 0 then lo == hi
    else rs[0].start == lo && rs[0].size > 0 && Tiles(rs[1..], lo + rs[0].size, hi)
  }

  lemma {:induction false} TilesAppend(rs: seq<Range>, lo: nat, mid: nat, r: Range)
    requires Tiles(rs, lo, mid) && r.start == mid && r.size > 0
    ensures Tiles(rs + [r], lo, mid + r.size)
    decreases |rs|
  {
    if |rs| == 0 {
      assert Tiles([r][1..], mid + r.size, mid + r.size);
    } else {
      TilesAppend(rs[1..], lo + rs[0].size, mid, r);
      assert (rs + [r])[1..] == rs[1..] + [r];
    }
  }

  /** Tiled ranges lie inside `[lo, hi)`, in increasing order, and never overlap. */
  lemma {:induction false} TilesDisjoint(rs: seq<Range>, lo: nat, hi: nat)
    requires Tiles(rs, lo, hi)
    ensures forall i | 0 <= i < |rs| :: lo <= rs[i].start && rs[i].start + rs[i].size <= hi
    ensures forall i, j | 0 <= i < j < |rs| :: rs[i].start + rs[i].size <= rs[j].start
    decreases |rs|
  {
    if |rs| > 0 {
      TilesDisjoint(rs[1..], lo + rs[0].size, hi);
      forall i, j | 0 <= i < j < |rs|
        ensures rs[i].start + rs[i].size <= rs[j].start
      {
        if i > 0 {
          assert rs[i] == rs[1..][i - 1] && rs[j] == rs[1..][j - 1];
        } else {
          assert rs[j] == rs[1..][j - 1];
        }
      }
    }
  }

  /**
   * The number of bytes read for the window at `foffset`: MIN(bufsize, filesize - foffset).
   */
  function WindowLength(filesize: nat, bufsize: nat, foffset: nat): nat
    requires foffset <= filesize
  {
    Min(bufsize, filesize - foffset)
  }

  /**
   * Where the next window starts, or None once this window reached the end of
   * the file: the cursor advances by one less than the bytes just read.
   */
  function NextOffset(filesize: nat, bufsize: nat, foffset: nat): (next: Option<nat>)
    requires foffset < filesize && bufsize >= 1
    ensures next.None? <==> foffset + WindowLength(filesize, bufsize, foffset) == filesize
    ensures next.Some? ==> next.value + 1 == foffset + WindowLength(filesize, bufsize, foffset)
    ensures next.Some? && bufsize >= 2 ==> foffset < next.value && filesize - next.value >= 2
    ensures next.Some? && bufsize == 1 ==> next.value == foffset
  {
    var len := WindowLength(filesize, bufsize, foffset);
    if foffset + len == filesize then None else Some(foffset + len - 1)
  }

  /**
   * pread(fd, buf, count, pos) as a complete transfer: every byte from `pos`
   * up to `pos + count` or the end of the file, whichever comes first.
   */
  function Pread(file: seq<Byte>, pos: nat, count: nat): seq<Byte>
  {
    if pos >= |file| then [] else file[pos..Min(pos + count, |file|)]
  }

  /** The read loop of rotate(): pread until `count` bytes are in, and fail on a read of 0 bytes. */
  method ReadWindow(file: seq<Byte>, foffset: nat, count: nat) returns (r: Result<seq<Byte>, IoError>)
    ensures r.Ok? <==> count == 0 || foffset + count <= |file|
    ensures r.Ok? ==> r.value == if count == 0 then [] else file[foffset..foffset + count]
  {
    var buffer: seq<Byte> := [];
    var roffset := 0;
    var rremaining: nat := count;
    while rremaining > 0
      invariant roffset + rremaining == count
      invariant foffset + roffset <= |file| || roffset == 0
      invariant roffset > 0 ==> buffer == file[foffset..foffset + roffset]
      invariant roffset == 0 ==> buffer == []
    {
      var nread := Pread(file, foffset + roffset, rremaining);
      if |nread| == 0 {
        return Err(InputReadError);
      }
      buffer := buffer + nread;
      roffset := roffset + |nread|;
      rremaining := rremaining - |nread|;
    }
    assert roffset == count;
    return Ok(buffer);
  }

  /**
   * How many of the `offered` bytes one write() call takes: the kernel's choice
   * at the head of `accepts`, at most `offered`; 0 is a call that makes no
   * progress and is simply repeated. Every call once `accepts` is exhausted
   * takes everything offered, so the loops below end.
   */
  function Accepted(accepts: seq<nat>, offered: nat): (n: nat)
    ensures n <= offered
    ensures |accepts| == 0 ==> n == offered
    ensures |accepts| > 0 && accepts[0] <= offered ==> n == accepts[0]
  {
    if |accepts| == 0 || accepts[0] > offered then offered else accepts[0]
  }

  function Rest(accepts: seq<nat>): seq<nat>
  {
    if |accepts| == 0 then [] else accepts[1..]
  }

  /**
   * The write loop of rotate() as written: after a short write it subtracts
   * the bytes written from the count but offers the same start of the buffer
   * again, because the buffer offset is never advanced.
   */
  function WriteLoopAsWritten(buffer: seq<Byte>, woffset: nat, wremaining: nat, accepts: seq<nat>): (written: seq<Byte>)
    requires woffset + wremaining <= |buffer|
    ensures |written| == wremaining
    decreases wremaining, |accepts|
  {
    if wremaining == 0 then []
    else
      var n := Accepted(accepts, wremaining);
      buffer[woffset..woffset + n] + WriteLoopAsWritten(buffer, woffset, wremaining - n, Rest(accepts))
  }

  /** One short write of a single byte makes the loop as written repeat the first byte and drop the last. */
  lemma ShortWriteRepeatsBytes()
    ensures WriteLoopAsWritten([0x01, 0x02, 0x03], 0, 3, [1]) == [0x01, 0x01, 0x02]
    ensures WriteLoopAsWritten([0x01, 0x02, 0x03], 0, 3, [1]) != [0x01, 0x02, 0x03]
  {
    assert WriteLoopAsWritten([0x01, 0x02, 0x03], 0, 2, []) == [0x01, 0x02];
  }

  /** When the first write() takes everything, the loop as written emits exactly the range offered. */
  lemma {:induction false} AsWrittenComplete(buffer: seq<Byte>, woffset: nat, wremaining: nat)
    requires woffset + wremaining <= |buffer|
    ensures WriteLoopAsWritten(buffer, woffset, wremaining, []) == buffer[woffset..woffset + wremaining]
  {
    if wremaining > 0 {
      assert WriteLoopAsWritten(buffer, woffset, 0, []) == [];
    }
  }

  /** A write() that returns 0 is repeated with the same arguments and changes nothing. */
  lemma {:induction false} ZeroWriteRetries(buffer: seq<Byte>, woffset: nat, wremaining: nat, accepts: seq<nat>)
    requires woffset + wremaining <= |buffer| && wremaining > 0
    ensures WriteLoopAsWritten(buffer, woffset, wremaining, [0] + accepts)
         == WriteLoopAsWritten(buffer, woffset, wremaining, accepts)
  {
    assert Rest([0] + accepts) == accepts;
  }

  /**
   * The write loop with the buffer offset advanced past each short write:
   * whatever sizes the kernel accepts, the bytes written are exactly the range offered.
   */
  method WriteRange(buffer: seq<Byte>, woffset: nat, wremaining: nat, accepts: seq<nat>) returns (written: seq<Byte>)
    requires woffset + wremaining <= |buffer|
    ensures written == buffer[woffset..woffset + wremaining]
  {
    written := [];
    var off := woffset;
    var remaining := wremaining;
    var kernel := accepts;
    while remaining > 0
      invariant woffset <= off && off + remaining == woffset + wremaining
      invariant written == buffer[woffset..off]
      decreases remaining, |kernel|
    {
      var n := Accepted(kernel, remaining);
      written := written + buffer[off..off + n];
      off := off + n;
      remaining := remaining - n;
      kernel := Rest(kernel);
    }
  }

  /** Bytes of the output produced once the cursor is at `foffset`. */
  function Covered(d: Direction, foffset: nat): nat
  {
    match d
    case Left => foffset
    case Right => if foffset == 0 then 0 else foffset + 1
  }

  /** The bytes rotate_left certifies in a window of the file `f` are the matching bytes of the global left rotation. */
  lemma LeftWindowCertified(f: seq<Byte>, foffset: nat, window: seq<Byte>, c: Certified)
    requires |window| >= 1 && foffset + |window| <= |f| && window == f[foffset..foffset + |window|]
    requires |c.buffer| == |window| && c.writeOff == 0
    requires c.writeSize == if foffset + |window| == |f| then |window| else |window| - 1
    requires forall i | 0 <= i < |window| - 1 :: c.buffer[i] == RotateLeftByte(window[i], window[i + 1])
    requires foffset + |window| == |f| ==> c.buffer[|window| - 1] == RotateLeftByte(window[|window| - 1], f[0])
    ensures c.buffer[..c.writeSize] == RotateLeftAll(f)[foffset..foffset + c.writeSize]
  {
    var g := RotateLeftAll(f);
    forall i | 0 <= i < c.writeSize
      ensures c.buffer[i] == g[foffset + i]
    {
      assert window[i] == f[foffset + i];
      if i < |window| - 1 {
        assert window[i + 1] == f[foffset + i + 1];
      }
    }
  }

  /** The bytes rotate_right certifies in a window of the file `f` are the matching bytes of the global right rotation. */
  lemma RightWindowCertified(f: seq<Byte>, foffset: nat, window: seq<Byte>, c: Certified)
    requires |window| >= 1 && foffset + |window| <= |f| && window == f[foffset..foffset + |window|]
    requires |c.buffer| == |window|
    requires forall i | 0 < i < |window| :: c.buffer[i] == RotateRightByte(window[i], window[i - 1])
    requires foffset == 0 ==>
      c.writeOff == 0 && c.writeSize == |window| && c.buffer[0] == RotateRightByte(window[0], f[|f| - 1])
    requires foffset != 0 ==> c.writeOff == 1 && c.writeSize == |window| - 1
    ensures c.writeOff + c.writeSize == |window|
    ensures c.buffer[c.writeOff..] == RotateRightAll(f)[foffset + c.writeOff..foffset + |window|]
  {
    var g := RotateRightAll(f);
    forall i | c.writeOff <= i < |window|
      ensures c.buffer[i] == g[foffset + i]
    {
      assert window[i] == f[foffset + i];
      if i > 0 {
        assert window[i - 1] == f[foffset + i - 1];
      }
    }
  }

  /**
   * The file offsets a window's certified range covers: rotate_left certifies
   * all but the last byte unless the window ends the file; rotate_right
   * certifies all but the first byte unless the window starts the file.
   */
  function CertifiedRange(d: Direction, filesize: nat, bufsize: nat, foffset: nat): Range
    requires foffset < filesize && bufsize >= 1
  {
    var len := WindowLength(filesize, bufsize, foffset);
    match d
    case Left => Range(foffset, if foffset + len == filesize then len else len - 1)
    case Right => if foffset == 0 then Range(0, len) else Range(foffset + 1, len - 1)
  }

  /**
   * Successive certified ranges are contiguous and non-empty: each starts at
   * the output produced so far and ends where the next one starts, or at the
   * end of the file.
   */
  lemma CertifiedRangesContiguous(d: Direction, filesize: nat, bufsize: nat, foffset: nat)
    requires bufsize >= 2 && foffset < filesize
    requires foffset == 0 || filesize - foffset >= 2
    ensures var c := CertifiedRange(d, filesize, bufsize, foffset);
      && c.start == Covered(d, foffset)
      && c.size > 0
      && c.start + c.size == match NextOffset(filesize, bufsize, foffset)
                             case None => filesize
                             case Some(next) => Covered(d, next)
  {
  }

  /** rotate_left applied to the window read at `foffset`, its certified bytes written. */
  method LeftWindow(file: seq<Byte>, filesize: nat, foffset: nat, window: seq<Byte>, accepts: seq<nat>)
    returns (r: Result<Range, IoError>, written: seq<Byte>)
    requires 1 <= |window| && foffset + |window| <= filesize
    requires filesize <= |file| ==> window == file[foffset..foffset + |window|]
    ensures filesize <= |file| ==> r.Ok?
    ensures r.Ok? ==> r.value == Range(foffset, if foffset + |window| == filesize then |window| else |window| - 1)
    ensures r.Ok? ==> |written| == r.value.size
    ensures r.Ok? && filesize <= |file| ==>
      written == RotateLeftAll(file[..filesize])[r.value.start..r.value.start + r.value.size]
  {
    var step := RotateLeftStep(file, filesize, foffset, window);
    if step.Err? {
      return Err(step.error), [];
    }
    var c := step.value;
    written := WriteRange(c.buffer, c.writeOff, c.writeSize, accepts);
    if filesize <= |file| {
      var f := file[..filesize];
      assert window == f[foffset..foffset + |window|];
      LeftWindowCertified(f, foffset, window, c);
    }
    return Ok(Range(foffset + c.writeOff, c.writeSize)), written;
  }

  /** rotate_right applied to the window read at `foffset`, its certified bytes written. */
  method RightWindow(file: seq<Byte>, filesize: nat, foffset: nat, window: seq<Byte>, accepts: seq<nat>)
    returns (r: Result<Range, IoError>, written: seq<Byte>)
    requires 1 <= |window| && foffset + |window| <= filesize
    requires filesize <= |file| ==> window == file[foffset..foffset + |window|]
    ensures filesize <= |file| ==> r.Ok?
    ensures r.Ok? ==> r.value == if foffset == 0 then Range(0, |window|) else Range(foffset + 1, |window| - 1)
    ensures r.Ok? ==> |written| == r.value.size
    ensures r.Ok? && filesize <= |file| ==>
      written == RotateRightAll(file[..filesize])[r.value.start..r.value.start + r.value.size]
  {
    var step := RotateRightStep(file, filesize, foffset, window);
    if step.Err? {
      return Err(step.error), [];
    }
    var c := step.value;
    written := WriteRange(c.buffer, c.writeOff, c.writeSize, accepts);
    if filesize <= |file| {
      var f := file[..filesize];
      assert window == f[foffset..foffset + |window|];
      RightWindowCertified(f, foffset, window, c);
    }
    return Ok(Range(foffset + c.writeOff, c.writeSize)), written;
  }

  /**
   * One iteration of rotate(): read the window at `foffset`, rotate it, and
   * write its certified range, reported as file offsets.
   */
  method ProcessWindow(file: seq<Byte>, filesize: nat, bufsize: nat, d: Direction, foffset: nat, accepts: seq<nat>)
    returns (r: Result<Range, IoError>, written: seq<Byte>)
    requires bufsize >= 2 && foffset < filesize
    ensures filesize <= |file| ==> r.Ok?
    ensures r.Ok? ==> r.value == CertifiedRange(d, filesize, bufsize, foffset) && |written| == r.value.size
    ensures r.Ok? ==> foffset + WindowLength(filesize, bufsize, foffset) <= |file|
    ensures r.Ok? && filesize <= |file| ==>
      written == RotateAll(d, file[..filesize])[r.value.start..r.value.start + r.value.size]
  {
    var len := WindowLength(filesize, bufsize, foffset);
    var window := ReadWindow(file, foffset, len);
    if window.Err? {
      return Err(window.error), [];
    }
    if d == Left {
      r, written := LeftWindow(file, filesize, foffset, window.value, accepts);
    } else {
      r, written := RightWindow(file, filesize, foffset, window.value, accepts);
    }
  }

  /** A prefix of g followed by the next n bytes of g is the longer prefix. */
  lemma PrefixExtend(g: seq<Byte>, out: seq<Byte>, written: seq<Byte>, n: nat)
    requires |out| + n <= |g| && out == g[..|out|] && written == g[|out|..|out| + n]
    ensures out + written == g[..|out| + n]
  {
  }

  /**
   * rotate(): the output of the windowed rotation of the first `filesize`
   * bytes of `file`, with the ranges written by successive iterations.
   * `accepts(k)` lists the byte counts the kernel accepts from the write()
   * calls of iteration `k`.
   */
  method Rotate(file: seq<Byte>, filesize: nat, bufsize: nat, d: Direction, accepts: nat -> seq<nat>)
    returns (r: Result<seq<Byte>, IoError>, writes: seq<Range>)
    requires bufsize >= 2
    requires filesize > 0
    ensures filesize <= |file| ==> r == Ok(RotateAll(d, file[..filesize])) && Tiles(writes, 0, filesize)
    ensures filesize > |file| ==> r.Err?
  {
    ghost var valid := filesize <= |file|;
    ghost var g := if valid then RotateAll(d, file[..filesize]) else [];
    var foffset := 0;
    var out: seq<Byte> := [];
    var iteration := 0;
    writes := [];
    while true
      invariant foffset < filesize
      invariant foffset == 0 || filesize - foffset >= 2
      invariant |out| == Covered(d, foffset)
      invariant Tiles(writes, 0, |out|)
      invariant valid ==> out == g[..|out|]
      decreases filesize - foffset
    {
      var range, written := ProcessWindow(file, filesize, bufsize, d, foffset, accepts(iteration));
      if range.Err? {
        return Err(range.error), writes;
      }
      CertifiedRangesContiguous(d, filesize, bufsize, foffset);
      TilesAppend(writes, 0, |out|, range.value);
      if valid {
        PrefixExtend(g, out, written, range.value.size);
      }
      writes := writes + [range.value];
      out := out + written;
      var next := NextOffset(filesize, bufsize, foffset);
      if next.None? {
        assert valid && |out| == filesize;
        assert out == g[..filesize] == g;
        return Ok(out), writes;
      }
      foffset := next.value;
      iteration := iteration + 1;
    }
  }
}
