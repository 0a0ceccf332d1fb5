/** Package `iostring`: a reader that hands out the lines of a text one at a time,
    numbering them from 1.

    The splitting of bytes into lines (bufio.Scanner with ScanLines) is not
    modelled: the reader is built over the sequence of lines the scanner would
    produce, and the scanner is its position in that sequence. */
module IoString {

  class LineReader {
    /** The lines the scanner produces, in order. */
    const lines: seq<string>
    /** How many lines the scanner has produced so far; the current one is
        lines[scanned - 1]. */
    var scanned: nat
    var lineNumber: int
    var hasNext: bool

    /** The reader is one line behind the scanner while a line is pending, and has
        caught up with it at the end. */
    ghost predicate Valid()
      reads this
    {
      && scanned <= |lines|
      && (hasNext ==> 1 <= scanned && lineNumber == scanned - 1)
      && (!hasNext ==> scanned == |lines| && lineNumber == |lines|)
    }

    /** NewLineReaderFromReader: the first line is scanned ahead. */
    constructor (lines: seq<string>)
      ensures Valid() && this.lines == lines
      ensures lineNumber == 0 && (hasNext <==> |lines| > 0)
    {
      this.lines := lines;
      scanned := 0;
      lineNumber := 0;
      hasNext := false;
      new;
      hasNext := Scan();
    }

    /** bufio.Scanner.Scan: move to the next line, if there is one. */
    method Scan() returns (ok: bool)
      modifies this
      ensures lineNumber == old(lineNumber) && hasNext == old(hasNext)
      ensures ok <==> old(scanned) < |lines|
      ensures scanned == if ok then old(scanned) + 1 else old(scanned)
    {
      if scanned < |lines| {
        scanned := scanned + 1;
        ok := true;
      } else {
        ok := false;
      }
    }

    /** Read: the next line, its number and true while there is one; at the end an
        empty line, the last number and false, with nothing changed. */
    method Read() returns (lineContent: string, lineNumber: int, isOk: bool)
      requires Valid()
      modifies this
      ensures Valid()
      ensures isOk == old(hasNext)
      ensures old(hasNext) ==> lineContent == lines[old(this.lineNumber)] && this.lineNumber == old(this.lineNumber) + 1
      ensures !old(hasNext) ==> lineContent == "" && this.lineNumber == old(this.lineNumber)
                                && scanned == old(scanned) && !hasNext
      ensures lineNumber == this.lineNumber
      ensures hasNext <==> this.lineNumber < |lines|
      ensures 0 <= this.lineNumber <= |lines|
    {
      if hasNext {
        this.lineNumber := this.lineNumber + 1;
        var content := lines[scanned - 1];
        hasNext := Scan();
        return content, this.lineNumber, true;
      }
      return "", this.lineNumber, false;
    }

    /** HasNext: whether a line remains, that is whether fewer lines were read than
        there are. */
    function HasNext(): (r: bool)
      reads this
      requires Valid()
      ensures r <==> lineNumber < |lines|
    {
      hasNext
    }

    /** LineNumber: how many lines were read, never more than there are. */
    function LineNumber(): (r: int)
      reads this
      requires Valid()
      ensures 0 <= r <= |lines|
      ensures r < |lines| <==> HasNext()
    {
      lineNumber
    }
  }
}
