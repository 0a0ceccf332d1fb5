/** Package `properties`: reading `key=value` lines into a map.

    Opening and closing files, and the splitting of bytes into lines, are not
    modelled: the input is the sequence of lines. */
module Properties {
  import opened Common
  import opened Errors
  import opened IoString

  /** What one line yields: a key and a value, and whether the line is an entry. */
  datatype LineData = LineData(key: string, value: string, isValue: bool)

  /** The comment test of extractDataFromLine, as written: it compares the empty
      slice content[0:0] with "#". */
  predicate CommentTest(content: string) {
    content[..0] == "#"
  }

  /** The pure part of extractDataFromLine. A blank line is no entry. Any other
      line is one: split at its first '=' into a trimmed key and a trimmed value,
      or, without '=', the whole untrimmed line as key and an empty value. */
  function ParseLine(lineContent: string): (r: LineData)
    ensures !r.isValue <==> AllSpace(lineContent)
    ensures !r.isValue ==> r.key == "" && r.value == ""
    ensures r.isValue && '=' !in lineContent ==> r.key == lineContent && r.value == ""
  {
    var content := TrimSpace(lineContent);
    if content == "" || CommentTest(content) then
      LineData("", content, false)
    else
      var equalIndex := IndexOf(lineContent, '=');
      if equalIndex < 0 then LineData(lineContent, "", true)
      else LineData(TrimSpace(lineContent[..equalIndex]), TrimSpace(lineContent[equalIndex + 1..]), true)
  }

  /** The comment test never holds, so a line starting with '#' is an entry like
      any other. */
  lemma CommentsAreEntries(lineContent: string)
    requires |TrimSpace(lineContent)| > 0 && TrimSpace(lineContent)[0] == '#'
    ensures ParseLine(lineContent).isValue
    ensures !CommentTest(TrimSpace(lineContent))
  {
  }

  /** A line made of `a`, '=' and `b`, where `a` has no '=', is the entry of the
      trimmed `a` with the trimmed `b`: any later '=' stays in the value. */
  lemma ParseKeyValue(a: string, b: string)
    requires '=' !in a
    ensures ParseLine(a + "=" + b) == LineData(TrimSpace(a), TrimSpace(b), true)
  {
    var line := a + "=" + b;
    SplitAtFirstEquals(a, b);
    var content := TrimSpace(line);
    assert content != "" && !CommentTest(content);
  }

  /** In `a + "=" + b` with no '=' in `a`, the first '=' is the one after `a`. */
  lemma SplitAtFirstEquals(a: string, b: string)
    requires '=' !in a
    ensures var line := a + "=" + b;
            IndexOf(line, '=') == |a| && line[..|a|] == a && line[|a| + 1..] == b && !AllSpace(line)
  {
    var line := a + "=" + b;
    assert line[|a|] == '=';
    assert !IsSpace(line[|a|]);
    assert line[..|a|] == a;
    assert line[|a| + 1..] == b;
  }

  /** The map after the given lines, each parsed by `parse`: every entry sets its
      key, so the last entry for a key wins. */
  function Collect(lines: seq<string>, parse: string -> LineData): map<string, string> {
    if |lines| == 0 then map[]
    else
      var m := Collect(lines[..|lines| - 1], parse);
      var d := parse(lines[|lines| - 1]);
      if d.isValue then m[d.key := d.value] else m
  }

  /** The map ReadToMap builds from the given lines. */
  function ToMap(lines: seq<string>): map<string, string> {
    Collect(lines, ParseLine)
  }

  /** `d` is an entry for `key`. */
  predicate EntryFor(d: LineData, key: string) {
    d.isValue && d.key == key
  }

  /** Line j is the last entry for `key` among `lines`. */
  predicate LastEntry(lines: seq<string>, parse: string -> LineData, key: string, j: int) {
    && 0 <= j < |lines| && EntryFor(parse(lines[j]), key)
    && forall l :: j < l < |lines| ==> !EntryFor(parse(lines[l]), key)
  }

  /** One more line read: the map of the longer prefix. */
  lemma ToMapStep(lines: seq<string>, k: nat)
    requires k < |lines|
    ensures var d := ParseLine(lines[k]);
            ToMap(lines[..k + 1]) == if d.isValue then ToMap(lines[..k])[d.key := d.value] else ToMap(lines[..k])
  {
    assert lines[..k + 1][..k] == lines[..k];
  }

  lemma {:induction false} CollectKeys(lines: seq<string>, parse: string -> LineData, key: string)
    ensures key in Collect(lines, parse) <==> exists j :: 0 <= j < |lines| && EntryFor(parse(lines[j]), key)
    decreases |lines|
  {
    if |lines| > 0 {
      var n := |lines| - 1;
      var init := lines[..n];
      CollectKeys(init, parse, key);
      if key in Collect(init, parse) {
        var j :| 0 <= j < |init| && EntryFor(parse(init[j]), key);
        assert init[j] == lines[j];
      }
      if !EntryFor(parse(lines[n]), key) && key !in Collect(init, parse) {
        forall j | 0 <= j < |lines| ensures !EntryFor(parse(lines[j]), key) {
          if j < n {
            assert init[j] == lines[j];
          }
        }
      }
    }
  }

  lemma {:induction false} CollectLastEntry(lines: seq<string>, parse: string -> LineData, key: string, j: int)
    requires LastEntry(lines, parse, key, j)
    ensures key in Collect(lines, parse) && Collect(lines, parse)[key] == parse(lines[j]).value
    decreases |lines|
  {
    var n := |lines| - 1;
    if j < n {
      var init := lines[..n];
      assert init[j] == lines[j];
      forall l | j < l < |init| ensures !EntryFor(parse(init[l]), key) {
        assert init[l] == lines[l];
      }
      CollectLastEntry(init, parse, key, j);
      assert !EntryFor(parse(lines[n]), key);
    }
  }

  /** A key is in the map exactly when some line is an entry for it. */
  lemma ToMapKeys(lines: seq<string>, key: string)
    ensures key in ToMap(lines) <==> exists j :: 0 <= j < |lines| && EntryFor(ParseLine(lines[j]), key)
  {
    CollectKeys(lines, ParseLine, key);
  }

  /** A key maps to the value of the last line that is an entry for it. */
  lemma ToMapLastEntry(lines: seq<string>, key: string, j: int)
    requires LastEntry(lines, ParseLine, key, j)
    ensures key in ToMap(lines) && ToMap(lines)[key] == ParseLine(lines[j]).value
  {
    CollectLastEntry(lines, ParseLine, key, j);
  }

  /** Reading more lines never loses a key. */
  lemma {:induction false} ToMapGrows(lines: seq<string>, m: nat)
    requires m <= |lines|
    ensures ToMap(lines[..m]).Keys <= ToMap(lines).Keys
    decreases |lines| - m
  {
    if m < |lines| {
      ToMapGrows(lines, m + 1);
      ToMapStep(lines, m);
    } else {
      assert lines[..m] == lines;
    }
  }

  /** extractDataFromLine: read one line and parse it; a read past the end is an
      error naming the line number. */
  method ExtractDataFromLine(lineReader: LineReader) returns (key: string, value: string, isValue: bool, err: Option<Error>)
    requires lineReader.Valid()
    modifies lineReader
    ensures lineReader.Valid()
    ensures old(lineReader.hasNext) ==>
              && err.None?
              && LineData(key, value, isValue) == ParseLine(lineReader.lines[old(lineReader.lineNumber)])
              && lineReader.lineNumber == old(lineReader.lineNumber) + 1
    ensures !old(lineReader.hasNext) ==>
              && err == Some(Plain("failed to read data at line " + IntToString(lineReader.lineNumber)))
              && lineReader.lineNumber == old(lineReader.lineNumber)
  {
    var lineContent, lineNumber, isOk := lineReader.Read();
    if !isOk {
      return "", "", false, Some(Plain("failed to read data at line " + IntToString(lineNumber)));
    }
    var d := ParseLine(lineContent);
    return d.key, d.value, d.isValue, None;
  }

  /** ReadToMap: every line in turn, each entry setting its key; reading never
      fails on a line the reader reported. */
  method ReadToMap(lines: seq<string>) returns (result: map<string, string>, err: Option<Error>)
    ensures result == ToMap(lines) && err.None?
  {
    result := map[];
    var lineReader := new LineReader(lines);
    var lineNumber := 0;
    while lineReader.HasNext()
      invariant lineReader.Valid() && lineReader.lines == lines
      invariant lineNumber == lineReader.lineNumber
      invariant result == ToMap(lines[..lineReader.lineNumber])
      decreases |lines| - lineReader.lineNumber
    {
      lineNumber := lineNumber + 1;
      ghost var before := lineReader.lineNumber;
      var key, value, isValue, e := ExtractDataFromLine(lineReader);
      if e.Some? {
        return result, e;
      }
      ToMapStep(lines, before);
      if isValue {
        result := result[key := value];
      }
    }
    assert lines[..lineReader.lineNumber] == lines;
    return result, None;
  }
}
