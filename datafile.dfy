/** parse_data_file (linker.py:109-127): the data file's lines are cut into
    riddles at header lines, which the regular expression `^---\s*(\w+)`
    recognises. */
module DataFile {
  import opened Wrappers
  import opened PyStrings
  import opened Riddles

  /** Why parsing stops. linker.py exits on an empty file and raises
      TypeError (`None += [line]`) on a line that comes before any header. */
  datatype ParseError = EmptyDataFile | LineBeforeFirstHeader

  /** `\w`, restricted to ASCII: letters, digits and the underscore. */
  predicate IsWordChar(c: char) {
    ('a' <= c <= 'z') || ('A' <= c <= 'Z') || ('0' <= c <= '9') || c == '_'
  }

  /** `\s`, restricted to ASCII: space, \t, \n, \r, \v, \f and the four
      separators \x1c to \x1f. */
  predicate IsSpace(c: char) {
    c == ' ' || c == '\t' || c == '\n' || c == '\r' || c == '\U{000B}' || c == '\U{000C}'
    || ('\U{001C}' <= c <= '\U{001F}')
  }

  /** How many characters `\s*` takes at the start of s. */
  function SpaceCount(s: string): (n: nat)
    ensures n <= |s|
    ensures forall i :: 0 <= i < n ==> IsSpace(s[i])
    ensures n < |s| ==> !IsSpace(s[n])
  {
    if s != [] && IsSpace(s[0]) then 1 + SpaceCount(s[1..]) else 0
  }

  /** How many characters `\w+` takes at the start of s (0: no match). */
  function WordLength(s: string): (n: nat)
    ensures n <= |s|
    ensures forall i :: 0 <= i < n ==> IsWordChar(s[i])
    ensures n < |s| ==> !IsWordChar(s[n])
  {
    if s != [] && IsWordChar(s[0]) then 1 + WordLength(s[1..]) else 0
  }

  /** `re.findall(r"^---\s*(\w+)", line)`: the captured name, or None when
      the list is empty. `^` anchors at the start of the line only, so there
      is at most one match. */
  function HeaderName(line: string): (name: Option<string>)
    ensures name.Some? ==> name.value != [] && forall i :: 0 <= i < |name.value| ==> IsWordChar(name.value[i])
  {
    if StartsWith(line, "---") then
      var j := 3 + SpaceCount(line[3..]);
      var n := WordLength(line[j..]);
      if n == 0 then None else Some(line[j..j + n])
    else None
  }

  /** The pattern matches with its group capturing `name` at position j:
      `---`, then only whitespace up to j, then name, made of word
      characters and not followed by another one. */
  ghost predicate MatchesAt(line: string, j: int, name: string) {
    StartsWith(line, "---") && 3 <= j && j + |name| <= |line|
    && (forall i :: 3 <= i < j ==> IsSpace(line[i]))
    && name != [] && line[j..j + |name|] == name
    && (forall i :: j <= i < j + |name| ==> IsWordChar(line[i]))
    && (j + |name| < |line| ==> !IsWordChar(line[j + |name|]))
  }

  /** HeaderName captures exactly what the greedy pattern captures. */
  lemma HeaderNameMeaning(line: string, name: string)
    ensures HeaderName(line) == Some(name) <==> exists j :: MatchesAt(line, j, name)
  {
    if HeaderName(line) == Some(name) {
      HeaderNameMatches(line);
    }
    if j :| MatchesAt(line, j, name) {
      MatchIsHeaderName(line, j, name);
    }
  }

  lemma HeaderNameMatches(line: string)
    requires HeaderName(line).Some?
    ensures MatchesAt(line, 3 + SpaceCount(line[3..]), HeaderName(line).value)
  {
  }

  lemma MatchIsHeaderName(line: string, j: int, name: string)
    requires MatchesAt(line, j, name)
    ensures HeaderName(line) == Some(name)
  {
    var rest := line[3..];
    assert line[j] == name[0];
    var m := j - 3;
    assert forall i :: 0 <= i < m ==> IsSpace(rest[i]);
    assert m < |rest| && !IsSpace(rest[m]);
    assert SpaceCount(rest) == m;
    var word := line[j..];
    assert forall i :: 0 <= i < |name| ==> IsWordChar(word[i]);
    assert WordLength(word) == |name|;
  }

  /** A riddle as parsed: its link name and its data, the joined lines that
      follow its header. */
  datatype Block = Block(name: string, data: string)

  /** The loop state of parse_data_file: the riddles closed so far, the
      current link name and the data buffer. Python's `None` buffer before
      the first header is the empty buffer with no current name. */
  datatype ScanState = ScanState(closed: seq<Block>, current: Option<string>, buffer: seq<string>)

  /* The loop below is written for any header recogniser `header`; the data
     file uses HeaderName. Its proofs need nothing about the pattern. */

  /** One iteration of the loop. */
  function Step(state: ScanState, line: string, header: string -> Option<string>): Result<ScanState, ParseError> {
    match header(line)
    case Some(name) =>
      Success(ScanState(state.closed + Pending(state), Some(name), []))
    case None =>
      if state.current.None? then Failure(LineBeforeFirstHeader)
      else Success(state.(buffer := state.buffer + [line]))
  }

  /** The block the state closes when a header or the end of the file comes. */
  function Pending(state: ScanState): seq<Block> {
    if state.current.Some? then [Block(state.current.value, JoinLines(state.buffer))] else []
  }

  /** The loop over the lines, as a left fold of Step. */
  function Scan(lines: seq<string>, header: string -> Option<string>): Result<ScanState, ParseError> {
    if lines == [] then Success(ScanState([], None, []))
    else
      match Scan(lines[..|lines| - 1], header)
      case Failure(e) => Failure(e)
      case Success(state) => Step(state, lines[|lines| - 1], header)
  }

  /** parse_data_file on a list of lines. */
  function Parse(lines: seq<string>, header: string -> Option<string>): Result<seq<Block>, ParseError> {
    if lines == [] then Failure(EmptyDataFile)
    else
      match Scan(lines, header)
      case Failure(e) => Failure(e)
      case Success(state) => Success(state.closed + Pending(state))
  }

  /** The positions of the header lines. */
  function HeaderIndices(lines: seq<string>, header: string -> Option<string>): (h: seq<nat>)
    ensures forall k :: 0 <= k < |h| ==> h[k] < |lines| && header(lines[h[k]]).Some?
    ensures forall k, l :: 0 <= k < l < |h| ==> h[k] < h[l]
  {
    if lines == [] then []
    else
      var n := |lines| - 1;
      HeaderIndices(lines[..n], header) + (if header(lines[n]).Some? then [n] else [])
  }

  /** Every header line is listed, and only header lines are. */
  lemma {:induction false} HeaderIndicesExact(lines: seq<string>, header: string -> Option<string>)
    ensures forall i :: i in HeaderIndices(lines, header) <==> 0 <= i < |lines| && header(lines[i]).Some?
  {
    if lines != [] {
      var n := |lines| - 1;
      HeaderIndicesExact(lines[..n], header);
      forall i | 0 <= i < n
        ensures lines[i] == lines[..n][i]
      {
      }
    }
  }

  /** The block of the header at `start`, whose data runs up to `end`. */
  function BlockAt(lines: seq<string>, start: nat, end: nat, header: string -> Option<string>): Block
    requires start < end <= |lines| && header(lines[start]).Some?
  {
    Block(header(lines[start]).value, JoinLines(lines[start + 1..end]))
  }

  /** Where the data of the k-th header ends: at the next header, or at the
      end of the file. */
  function BlockEnd(h: seq<nat>, k: nat, size: nat): nat
    requires k < |h|
  {
    if k + 1 < |h| then h[k + 1] else size
  }

  /** The state after a prefix that starts with a header: every header but
      the last has closed its block, the last one is current and the buffer
      holds the lines after it. */
  ghost predicate ScannedShape(lines: seq<string>, state: ScanState, header: string -> Option<string>) {
    var h := HeaderIndices(lines, header);
    |h| >= 1 && h[0] == 0
    && state.current == header(lines[h[|h| - 1]])
    && state.buffer == lines[h[|h| - 1] + 1..]
    && |state.closed| == |h| - 1
    && forall k :: 0 <= k < |h| - 1 ==> state.closed[k] == BlockAt(lines, h[k], h[k + 1], header)
  }

  lemma {:induction false} ScanShape(lines: seq<string>, header: string -> Option<string>)
    requires lines != [] && header(lines[0]).Some?
    ensures Scan(lines, header).Success? && ScannedShape(lines, Scan(lines, header).value, header)
  {
    var n := |lines| - 1;
    var prefix := lines[..n];
    if n == 0 {
      assert HeaderIndices(lines, header) == [0];
    } else {
      assert prefix[0] == lines[0];
      ScanShape(prefix, header);
      var state := Scan(prefix, header).value;
      assert Scan(lines, header) == Step(state, lines[n], header);
      if header(lines[n]).Some? {
        ShapeAfterHeader(lines, state, header);
      } else {
        ShapeAfterData(lines, state, header);
      }
    }
  }

  /** Slices that end inside the prefix are the prefix's own. */
  lemma ClosedBlocksKept(lines: seq<string>, h: seq<nat>, header: string -> Option<string>)
    requires |lines| >= 1 && h == HeaderIndices(lines[..|lines| - 1], header)
    ensures forall k :: 0 <= k < |h| - 1 && header(lines[h[k]]).Some? ==>
              BlockAt(lines, h[k], h[k + 1], header) == BlockAt(lines[..|lines| - 1], h[k], h[k + 1], header)
  {
    var prefix := lines[..|lines| - 1];
    forall k | 0 <= k < |h| - 1 && header(lines[h[k]]).Some?
      ensures BlockAt(lines, h[k], h[k + 1], header) == BlockAt(prefix, h[k], h[k + 1], header)
    {
      assert h[k] < h[k + 1] < |prefix|;
      SliceOfPrefix(lines, |lines| - 1, h[k] + 1, h[k + 1]);
    }
  }

  lemma SliceOfPrefix<T>(s: seq<T>, n: nat, a: nat, b: nat)
    requires a <= b <= n <= |s|
    ensures s[..n][a..b] == s[a..b]
  {
  }

  /** A header line closes the current block and opens its own. */
  lemma ShapeAfterHeader(lines: seq<string>, state: ScanState, header: string -> Option<string>)
    requires |lines| >= 2 && ScannedShape(lines[..|lines| - 1], state, header)
    requires header(lines[|lines| - 1]).Some?
    ensures Step(state, lines[|lines| - 1], header).Success?
    ensures ScannedShape(lines, Step(state, lines[|lines| - 1], header).value, header)
  {
    var n := |lines| - 1;
    var prefix := lines[..n];
    var h := HeaderIndices(prefix, header);
    var last := h[|h| - 1];
    assert HeaderIndices(lines, header) == h + [n];
    ClosedBlocksKept(lines, h, header);
    assert prefix[last + 1..] == lines[last + 1..n];
    assert Pending(state) == [BlockAt(lines, last, n, header)];
  }

  /** Any other line joins the current block's buffer. */
  lemma ShapeAfterData(lines: seq<string>, state: ScanState, header: string -> Option<string>)
    requires |lines| >= 2 && ScannedShape(lines[..|lines| - 1], state, header)
    requires header(lines[|lines| - 1]).None?
    ensures Step(state, lines[|lines| - 1], header).Success?
    ensures ScannedShape(lines, Step(state, lines[|lines| - 1], header).value, header)
  {
    var n := |lines| - 1;
    var prefix := lines[..n];
    var h := HeaderIndices(prefix, header);
    var last := h[|h| - 1];
    assert HeaderIndices(lines, header) == h;
    ClosedBlocksKept(lines, h, header);
    assert lines[last + 1..] == prefix[last + 1..] + [lines[n]];
  }

  lemma {:induction false} ScanFails(lines: seq<string>, header: string -> Option<string>)
    requires lines != [] && header(lines[0]).None?
    ensures Scan(lines, header) == Failure(LineBeforeFirstHeader)
  {
    var n := |lines| - 1;
    if n > 0 {
      assert lines[..n][0] == lines[0];
      ScanFails(lines[..n], header);
    }
  }

  lemma PendingBlock(lines: seq<string>, last: nat, state: ScanState, header: string -> Option<string>)
    requires last < |lines| && header(lines[last]).Some?
    requires state.current == header(lines[last]) && state.buffer == lines[last + 1..]
    ensures Pending(state) == [BlockAt(lines, last, |lines|, header)]
  {
    assert lines[last + 1..] == lines[last + 1..|lines|];
  }

  /** parse_data_file fails on an empty file and on a file whose first line
      is not a header; otherwise it yields one riddle per header line, named
      by the header and holding the lines up to the next header, joined. */
  lemma ParseStructure(lines: seq<string>, header: string -> Option<string>)
    ensures Parse(lines, header) == Failure(EmptyDataFile) <==> lines == []
    ensures Parse(lines, header) == Failure(LineBeforeFirstHeader) <==> lines != [] && header(lines[0]).None?
    ensures Parse(lines, header).Success? ==>
              var blocks := Parse(lines, header).value;
              var h := HeaderIndices(lines, header);
              |blocks| == |h|
              && forall k :: 0 <= k < |h| ==> blocks[k] == BlockAt(lines, h[k], BlockEnd(h, k, |lines|), header)
  {
    if lines != [] {
      if header(lines[0]).Some? {
        ScanShape(lines, header);
        var state := Scan(lines, header).value;
        var h := HeaderIndices(lines, header);
        var last := h[|h| - 1];
        PendingBlock(lines, last, state, header);
        var blocks := state.closed + Pending(state);
        forall k | 0 <= k < |h|
          ensures blocks[k] == BlockAt(lines, h[k], BlockEnd(h, k, |lines|), header)
        {
          if k < |h| - 1 {
            assert blocks[k] == state.closed[k];
          }
        }
      } else {
        ScanFails(lines, header);
      }
    }
  }

  /** One more line is one more Step. */
  lemma ScanExtend(lines: seq<string>, i: nat, header: string -> Option<string>)
    requires i < |lines|
    ensures Scan(lines[..i + 1], header)
            == match Scan(lines[..i], header)
               case Failure(e) => Failure(e)
               case Success(state) => Step(state, lines[i], header)
  {
    assert lines[..i + 1][..i] == lines[..i];
  }

  /** The blocks the riddles were built from. */
  function BlocksOf(riddles: seq<Riddle>): (blocks: seq<Block>)
    ensures |blocks| == |riddles|
    ensures forall k :: 0 <= k < |riddles| ==> blocks[k] == Block(riddles[k].linkName, riddles[k].data)
  {
    if riddles == [] then []
    else
      var n := |riddles| - 1;
      BlocksOf(riddles[..n]) + [Block(riddles[n].linkName, riddles[n].data)]
  }

  lemma BlocksOfAppend(riddles: seq<Riddle>, riddle: Riddle)
    ensures BlocksOf(riddles + [riddle]) == BlocksOf(riddles) + [Block(riddle.linkName, riddle.data)]
  {
    assert (riddles + [riddle])[..|riddles|] == riddles;
  }

  /** `riddles.append(Riddle(name, "\n".join(buffer)))`. */
  method AppendRiddle(riddles: seq<Riddle>, name: string, buffer: seq<string>) returns (extended: seq<Riddle>)
    requires Distinct(riddles)
    ensures BlocksOf(extended) == BlocksOf(riddles) + [Block(name, JoinLines(buffer))]
    ensures |extended| == |riddles| + 1 && extended == riddles + [extended[|riddles|]]
    ensures Distinct(extended)
    ensures fresh(extended[|riddles|]) && extended[|riddles|].dependencies == [] && extended[|riddles|].link.None?
  {
    var riddle := new Riddle(name, JoinLines(buffer));
    DistinctAppend(riddles, riddle);
    BlocksOfAppend(riddles, riddle);
    extended := riddles + [riddle];
  }

  /** parse_data_file: builds the riddles, unlinked and unresolved, that Parse
      describes, or fails as Parse does. */
  method ParseDataFile(rawData: seq<string>) returns (result: Result<seq<Riddle>, ParseError>)
    ensures result.Failure? <==> Parse(rawData, HeaderName).Failure?
    ensures result.Failure? ==> result.error == Parse(rawData, HeaderName).error
    ensures result.Success? ==> BlocksOf(result.value) == Parse(rawData, HeaderName).value
    ensures result.Success? ==>
              Distinct(result.value)
              && forall r :: r in result.value ==> fresh(r) && r.dependencies == [] && r.link.None?
  {
    if |rawData| == 0 {
      return Failure(EmptyDataFile);
    }
    var current: Option<string> := None;
    var buffer: seq<string> := [];
    var riddles: seq<Riddle> := [];
    for i := 0 to |rawData|
      invariant Scan(rawData[..i], HeaderName) == Success(ScanState(BlocksOf(riddles), current, buffer))
      invariant i > 0 ==> current.Some?
      invariant Distinct(riddles)
      invariant forall r :: r in riddles ==> fresh(r) && r.dependencies == [] && r.link.None?
    {
      var line := rawData[i];
      ghost var state := ScanState(BlocksOf(riddles), current, buffer);
      ScanExtend(rawData, i, HeaderName);
      var name := HeaderName(line);
      if name.Some? {
        if current.Some? {
          riddles := AppendRiddle(riddles, current.value, buffer);
        }
        assert BlocksOf(riddles) == state.closed + Pending(state);
        current := name;
        buffer := [];
      } else {
        if current.None? {
          ScanFails(rawData, HeaderName);
          return Failure(LineBeforeFirstHeader);
        }
        buffer := buffer + [line];
      }
    }
    assert rawData[..|rawData|] == rawData;
    ghost var state := ScanState(BlocksOf(riddles), current, buffer);
    if current.Some? {
      riddles := AppendRiddle(riddles, current.value, buffer);
    }
    assert BlocksOf(riddles) == state.closed + Pending(state);
    return Success(riddles);
  }
}
