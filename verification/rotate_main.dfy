/**
 * main() of the rotator: the argument checks that select a rotation direction
 * and the guard that runs the windowed rotation only on a non-empty file.
 * Opening, stat-ing and creating files are outside the model: the input file
 * is its contents, the output file is the returned byte sequence.
 */
module RotateMain {
  import opened Results
  import opened ByteRotate
  import opened GlobalRotation
  import opened RotateStep
  import opened RotateDriver

  /** BUFFER_SIZE: the window capacity the program is built with. */
  const BufferSize: nat := 3

  /** Why a run ends without a complete output file. */
  datatype RunError =
    | Usage              // wrong argument count or an unknown direction token
    | Io(error: IoError) // a fatal read during the rotation

  /**
   * The rotator selected by `argv`: exactly three arguments after the program
   * name, the first being `left` or `right`.
   */
  function SelectRotator(argv: seq<string>): (d: Option<Direction>)
    ensures d == Some(Left) <==> |argv| == 4 && argv[1] == "left"
    ensures d == Some(Right) <==> |argv| == 4 && argv[1] == "right"
  {
    if |argv| != 4 then None
    else if argv[1] == "left" then Some(Left)
    else if argv[1] == "right" then Some(Right)
    else None
  }

  /**
   * A run of the program on an input file holding `input`: a usage error, or
   * the output file's contents. `accepts(k)` lists the byte counts the kernel
   * accepts from the write() calls of iteration `k`.
   */
  method RunRotate(argv: seq<string>, input: seq<Byte>, accepts: nat -> seq<nat>)
    returns (r: Result<seq<Byte>, RunError>)
    ensures SelectRotator(argv).None? ==> r == Err(Usage)
    ensures SelectRotator(argv).Some? ==> r == Ok(RotateAll(SelectRotator(argv).value, input))
    ensures SelectRotator(argv).Some? && |input| == 0 ==> r == Ok([])
  {
    var rotator := SelectRotator(argv);
    if rotator.None? {
      return Err(Usage);
    }
    if |input| == 0 {
      return Ok([]);
    }
    var out, _ := Rotate(input, |input|, BufferSize, rotator.value, accepts);
    assert input[..|input|] == input;
    r := match out
      case Ok(bytes) => Ok(bytes)
      case Err(e) => Err(Io(e));
  }
}
