/**
 * Reading one `i32` per line, with the first bad line reported by its
 * 1-based number. The reader's lines are given as a sequence of read
 * results, an `Err` being an I/O error on that line.
 */
module ErrorHandling {
  import opened Wrappers
  import opened Decimal
  import Mandelbrot

  /** `ParseLineError { message, line, line_number }`. */
  datatype ParseLineError = ParseLineError(message: string, line: string, lineNumber: nat)

  /** The boxed errors `read_numbers` can return: the reader's own, or a bad line. */
  datatype ReadError<E> = Io(io: E) | ParseLine(parse: ParseLineError)

  /** The `#[error("'{message}' on line {line_number}: '{line}'")]` display. */
  function Display(e: ParseLineError): string
  {
    "'" + e.message + "' on line " + NatToString(e.lineNumber) + ": '" + e.line + "'"
  }

  /** A line that stops `read_numbers`: unreadable, or not an `i32`. */
  predicate LineFails<E>(line: Result<string, E>)
  {
    line.Err? || ParseI32(line.value).Err?
  }

  /** The error `read_numbers` returns for the failing line at index `k`. */
  function FailureAt<E>(line: Result<string, E>, k: nat): ReadError<E>
    requires LineFails(line)
  {
    match line
    case Err(e) => Io(e)
    case Ok(text) => ParseLine(ParseLineError(Message(ParseI32(text).error), text, k + 1))
  }

  /**
   * `read_numbers`: every line's number in order when all lines read and
   * parse; otherwise the error of the first line that does not, for which
   * the I/O error is passed on unchanged and a parse error carries the
   * parser's message, the line and its 1-based number.
   */
  method ReadNumbers<E>(lines: seq<Result<string, E>>) returns (r: Result<seq<int>, ReadError<E>>)
    ensures match Mandelbrot.Position(lines, LineFails)
            case None =>
              r.Ok? && |r.value| == |lines| &&
              forall k :: 0 <= k < |lines| ==> lines[k].Ok? && ParseI32(lines[k].value) == Ok(r.value[k])
            case Some(k) => r == Err(FailureAt(lines[k], k))
  {
    var numbers := [];
    for lineIndex := 0 to |lines|
      invariant |numbers| == lineIndex
      invariant forall k :: 0 <= k < lineIndex ==> !LineFails(lines[k]) && ParseI32(lines[k].value) == Ok(numbers[k])
    {
      match lines[lineIndex]
      case Err(e) =>
        PositionAt(lines, lineIndex);
        return Err(Io(e));
      case Ok(line) =>
        match ParseI32(line)
        case Ok(number) =>
          numbers := numbers + [number];
        case Err(parseError) =>
          PositionAt(lines, lineIndex);
          return Err(ParseLine(ParseLineError(Message(parseError), line, lineIndex + 1)));
    }
    return Ok(numbers);
  }

  /** The first failing line is found where every earlier one succeeds. */
  lemma PositionAt<E>(lines: seq<Result<string, E>>, k: nat)
    requires k < |lines| && LineFails(lines[k])
    requires forall j :: 0 <= j < k ==> !LineFails(lines[j])
    ensures Mandelbrot.Position(lines, LineFails) == Some(k)
  {
  }

  /** When no line fails there is no first failing line. */
  lemma {:induction false} NoFailure<E>(lines: seq<Result<string, E>>)
    requires forall j :: 0 <= j < |lines| ==> !LineFails(lines[j])
    ensures Mandelbrot.Position(lines, LineFails) == None
  {
    if lines != [] {
      NoFailure(lines[1..]);
    }
  }

  /** All numbers fit an `i32`. */
  lemma ReadNumbersInRange<E>(lines: seq<Result<string, E>>, numbers: seq<int>)
    requires Mandelbrot.Position(lines, LineFails).None?
    requires |numbers| == |lines|
    requires forall k :: 0 <= k < |lines| ==> lines[k].Ok? && ParseI32(lines[k].value) == Ok(numbers[k])
    ensures forall k :: 0 <= k < |numbers| ==> I32_MIN <= numbers[k] <= I32_MAX
  {
  }

  /** Three numbers read back in order. */
  method ReadNumbersDemo() returns (good: Result<seq<int>, ReadError<string>>)
    ensures good == Ok([12, -7, 0])
  {
    assert ParseI32("12") == Ok(12) && ParseI32("-7") == Ok(-7) && ParseI32("0") == Ok(0);
    var goodLines: seq<Result<string, string>> := [Ok("12"), Ok("-7"), Ok("0")];
    assert !LineFails(goodLines[0]) && !LineFails(goodLines[1]) && !LineFails(goodLines[2]);
    NoFailure(goodLines);
    good := ReadNumbers(goodLines);
    assert good.Ok? && |good.value| == 3;
    assert good.value[0] == 12 && good.value[1] == -7 && good.value[2] == 0;
    assert good.value == [12, -7, 0];
  }

  /**
   * A third line that is not a number is reported on line 3 with the
   * parser's message, and the unreadable fourth line is never reached.
   */
  method ReadNumbersBadLineDemo() returns (bad: Result<seq<int>, ReadError<string>>)
    ensures bad == Err(ParseLine(ParseLineError("invalid digit found in string", "x1", 3)))
  {
    assert ParseI32("12") == Ok(12) && ParseI32("-7") == Ok(-7);
    assert ParseI32("x1") == Err(InvalidDigit);
    var badLines: seq<Result<string, string>> := [Ok("12"), Ok("-7"), Ok("x1"), Err("unreadable")];
    PositionAt(badLines, 2);
    bad := ReadNumbers(badLines);
  }

  /** How that error displays, whatever the parser's message: quoted, then the line number and the quoted line. */
  lemma DisplayBadLine(message: string)
    ensures Display(ParseLineError(message, "x1", 3)) == "'" + message + "' on line 3: 'x1'"
  {
    assert NatToString(3) == "3";
    var tail := "' on line " + "3" + ": '" + "x1" + "'";
    assert tail == "' on line 3: 'x1'";
    assert Display(ParseLineError(message, "x1", 3)) == "'" + message + tail;
  }
}
