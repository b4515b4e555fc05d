/**
  The wire format of event streams, line by line: `event:` and `data:` fields with any white space around
  their values, and lines of any other kind (ids, retry times, comments). Every line is of one of these kinds, so
  reading back what was written says what reading does with every block; the incremental readers give back
  exactly what was written, however it is cut into reads.
 */
module WireRoundTrip {
  import opened Wrappers
  import opened GoText
  import opened Arrival
  import opened EventStream
  import opened StreamProperties
  import opened Callbacks
  import opened OpenStream

  // ---------------------------------------------------------------- lines

  /** A line of a block; the white space around a name is given character by character. */
  datatype Line =
    | Name(before: seq<string>, name: string, after: seq<string>)
    | Data(blanks: string, value: string)
    | Other(text: string)

  function LineText(line: Line): string
  {
    match line
    case Name(before, name, after) => "event:" + (Concat(before) + name + Concat(after))
    case Data(blanks, value) => "data:" + (blanks + value)
    case Other(text) => text
  }

  predicate Readable(line: Line)
  {
    && '\n' !in LineText(line)
    && match line {
         case Name(before, name, after) => AllSpaces(before) && Trimmed(name) && AllSpaces(after)
         case Data(blanks, value) => (forall c :: c in blanks ==> c in " \t") && (value == "" || value[0] !in " \t")
         case Other(text) => !("event:" <= text) && !("data:" <= text)
       }
  }

  /** Every line can be written so. */
  lemma EveryLineIsWritten(text: string) returns (line: Line)
    requires '\n' !in text
    ensures Readable(line) && LineText(line) == text
  {
    if "event:" <= text {
      var rest := text[|"event:"|..];
      var before, after := TrimSpaceIs(rest);
      hide TrimSpace, IsSpaceUnit, Trimmed;
      line := Name(before, TrimSpace(rest), after);
      assert text == "event:" + rest;
    } else if "data:" <= text {
      var rest := text[|"data:"|..];
      var blanks := TrimBlanksIs(rest);
      line := Data(blanks, TrimBlanksLeft(rest));
      assert text == "data:" + rest;
    } else {
      line := Other(text);
    }
  }

  /** A block's lines. */
  type Item = seq<Line>

  ghost predicate AllReadable(lines: seq<Line>)
  {
    forall i :: 0 <= i < |lines| ==> Readable(lines[i])
  }

  function LineTexts(lines: seq<Line>): (texts: seq<string>)
    ensures |texts| == |lines|
    ensures forall i :: 0 <= i < |lines| ==> texts[i] == LineText(lines[i])
  {
    seq(|lines|, i requires 0 <= i < |lines| => LineText(lines[i]))
  }

  function BlockText(item: Item): string
  {
    Join(LineTexts(item), "\n")
  }

  /** The name a block ends up with when it starts with `name`. */
  function NameIn(item: Item, name: string): string
  {
    if item == [] then name
    else NameIn(item[1..], if item[0].Name? then item[0].name else name)
  }

  function ValuesIn(item: Item): seq<string>
  {
    if item == [] then []
    else (if item[0].Data? then [item[0].value] else []) + ValuesIn(item[1..])
  }

  /** What a block says. */
  function Meaning(item: Item): Block
  {
    Block(NameIn(item, "message"), Join(ValuesIn(item), "\n"), ValuesIn(item) != [])
  }

  lemma OneMoreLine(lines: seq<string>, line: Line)
    requires Readable(line)
    ensures EventName(lines + [LineText(line)]) == if line.Name? then line.name else EventName(lines)
    ensures DataLines(lines + [LineText(line)]) == DataLines(lines) + if line.Data? then [line.value] else []
  {
    var text := LineText(line);
    var all := lines + [text];
    assert all[..|all| - 1] == lines && Last(all) == text;
    assert "event:"[0] == 'e' && "data:"[0] == 'd';
    hide TrimSpace, TrimBlanksLeft;
    match line
    case Name(before, name, after) =>
      TrimSurrounded(before, name, after);
      assert text[0] == 'e' && text[..|"event:"|] == "event:" && "event:" <= text;
      assert text[|"event:"|..] == Concat(before) + name + Concat(after);
    case Data(blanks, value) =>
      TrimBlanksBefore(blanks, value);
      assert text[0] == 'd' && text[..|"data:"|] == "data:" && "data:" <= text;
      assert text[|"data:"|..] == blanks + value;
    case Other(_) =>
  }

  lemma {:induction false} NameInLast(front: Item, line: Line, name: string)
    ensures NameIn(front + [line], name) == if line.Name? then line.name else NameIn(front, name)
    ensures ValuesIn(front + [line]) == ValuesIn(front) + if line.Data? then [line.value] else []
  {
    if front == [] {
      assert front + [line] == [line] && [line][1..] == [];
    } else {
      NameInLast(front[1..], line, if front[0].Name? then front[0].name else name);
      assert (front + [line])[1..] == front[1..] + [line];
    }
  }

  lemma NoLines()
    ensures EventName([]) == NameIn([], "message") && DataLines([]) == ValuesIn([])
  {
  }

  lemma {:induction false} ReadLines(item: Item)
    requires AllReadable(item)
    ensures EventName(LineTexts(item)) == NameIn(item, "message")
    ensures DataLines(LineTexts(item)) == ValuesIn(item)
  {
    hide EventName, DataLines, NameIn, ValuesIn, Readable, LineText;
    if item == [] {
      NoLines();
      assert LineTexts(item) == [];
    } else {
      var front, line := item[..|item| - 1], item[|item| - 1];
      ReadLines(front);
      OneMoreLine(LineTexts(front), line);
      NameInLast(front, line, "message");
      assert item == front + [line] && LineTexts(item) == LineTexts(front) + [LineText(line)];
    }
  }

  /** Reading a written block gives back what it says: the last name, all data, nothing of any other line. */
  lemma ReadWritten(item: Item)
    requires item != [] && AllReadable(item)
    ensures ReadBlock(BlockText(item)) == Meaning(item)
  {
    ReadLines(item);
    assert forall i :: 0 <= i < |item| ==> '\n' !in LineTexts(item)[i];
    hide Split, Join, EventName, DataLines, LineText;
    SplitJoin(LineTexts(item), '\n');
  }

  lemma {:induction false} WriteLines(lines: seq<string>) returns (item: Item)
    requires forall i :: 0 <= i < |lines| ==> '\n' !in lines[i]
    ensures AllReadable(item) && LineTexts(item) == lines
  {
    hide Readable, LineText;
    if lines == [] {
      item := [];
    } else {
      var rest := WriteLines(lines[1..]);
      var line := EveryLineIsWritten(lines[0]);
      item := [line] + rest;
      assert LineTexts(item) == [LineText(line)] + LineTexts(rest);
    }
  }

  /** Every text of a block can be written so, so this is all that reading does. */
  lemma EveryBlockIsWritten(text: string) returns (item: Item)
    ensures item != [] && AllReadable(item) && BlockText(item) == text
  {
    hide Split, Join, AllReadable;
    SplitHasNoBreaks(text);
    JoinSplit(text, "\n");
    assert forall i :: 0 <= i < |Split(text, "\n")| ==> Split(text, "\n")[i] in Split(text, "\n");
    item := WriteLines(Split(text, "\n"));
  }

  // ---------------------------------------------------------------- what the server writes

  /** An event as the server writes it: an id if it has one, the name, and a line for each line of data. */
  function ServerEvent(id: Option<string>, name: string, data: string): Item
  {
    (if id.Some? then [Other("id: " + id.value)] else []) + [Name([" "], name, [])] + DataOf(Split(data, "\n"))
  }

  function DataOf(parts: seq<string>): (lines: Item)
    ensures |lines| == |parts|
    ensures forall i :: 0 <= i < |parts| ==> lines[i] == Data(" ", parts[i])
  {
    seq(|parts|, i requires 0 <= i < |parts| => Data(" ", parts[i]))
  }

  predicate PlainDataLine(line: string)
  {
    !EndsCr(line) && (line == "" || line[0] !in " \t")
  }

  /** Names and data the format can carry. */
  predicate Carried(id: Option<string>, name: string, data: string)
  {
    && (id.Some? ==> '\n' !in id.value && !EndsCr(id.value))
    && '\n' !in name && Trimmed(name)
    && forall line :: line in Split(data, "\n") ==> PlainDataLine(line)
  }

  lemma {:induction false} MeaningOfData(parts: seq<string>, name: string)
    ensures NameIn(DataOf(parts), name) == name && ValuesIn(DataOf(parts)) == parts
  {
    if parts != [] {
      MeaningOfData(parts[1..], name);
      assert DataOf(parts)[1..] == DataOf(parts[1..]);
    }
  }

  lemma NameInStep(line: Line, rest: Item, name: string)
    ensures NameIn([line] + rest, name) == NameIn(rest, if line.Name? then line.name else name)
    ensures ValuesIn([line] + rest) == (if line.Data? then [line.value] else []) + ValuesIn(rest)
  {
    assert ([line] + rest)[1..] == rest;
  }

  /** The server's events say their name and data, and their id changes nothing. */
  lemma ServerEventIsWritten(id: Option<string>, name: string, data: string)
    requires Carried(id, name, data)
    ensures WellFormed(ServerEvent(id, name, data))
    ensures Meaning(ServerEvent(id, name, data)) == Block(name, data, true)
  {
    var parts := Split(data, "\n");
    var named := [Name([" "], name, [])] + DataOf(parts);
    ServerLinesAreClean(id, name, data);
    MeaningOfData(parts, name);
    JoinSplit(data, "\n");
    hide Split, Join, NameIn, ValuesIn, CleanLine, Readable;
    NameInStep(Name([" "], name, []), DataOf(parts), "message");
    assert [] + parts == parts;
    if id.Some? {
      NameInStep(Other("id: " + id.value), named, "message");
      assert ServerEvent(id, name, data) == [Other("id: " + id.value)] + named;
    } else {
      assert ServerEvent(id, name, data) == named;
    }
  }

  lemma ServerLinesAreClean(id: Option<string>, name: string, data: string)
    requires Carried(id, name, data)
    ensures WellFormed(ServerEvent(id, name, data))
  {
    hide Split, CleanLine, Trimmed, EndsCr;
    FieldsAreClean();
    var item, parts := ServerEvent(id, name, data), Split(data, "\n");
    SplitHasNoBreaks(data);
    TrimmedEndsVisible(name);
    forall i | 0 <= i < |item| ensures Readable(item[i]) && CleanLine(LineText(item[i])) {
      match item[i]
      case Other(text) =>
        FieldIsClean("id: ", id.value);
        assert text[0] == 'i' && "event:"[0] == 'e' && "data:"[0] == 'd';
        CleanHasNoBreak(text);
      case Name(before, _, after) =>
        FieldIsClean("event: ", name);
        assert Concat([" "]) == " " && " " + name + "" == " " + name && "event:" + (" " + name) == "event: " + name;
        CleanHasNoBreak("event: " + name);
      case Data(blanks, value) =>
        assert value in parts && PlainDataLine(value);
        FieldIsClean("data: ", value);
        assert "data:" + (" " + value) == "data: " + value;
        CleanHasNoBreak("data: " + value);
    }
  }

  lemma CleanHasNoBreak(line: string)
    requires CleanLine(line)
    ensures '\n' !in line
  {
  }

  lemma TrimmedEndsVisible(s: string)
    requires Trimmed(s)
    ensures !EndsCr(s)
  {
  }

  lemma FieldsAreClean()
    ensures CleanLine("id: ") && CleanLine("event: ") && CleanLine("data: ")
  {
  }

  lemma FieldIsClean(field: string, text: string)
    requires CleanLine(field) && '\n' !in text && !EndsCr(text)
    ensures CleanLine(field + text)
  {
    assert text != "" ==> Last(field + text) == Last(text);
    assert text == "" ==> field + text == field;
  }

  // ---------------------------------------------------------------- clean text

  /** Lines as `Split` leaves them. */
  ghost predicate CleanLines(lines: seq<string>)
  {
    lines != [] && forall i :: 0 <= i < |lines| ==> CleanLine(lines[i])
  }

  predicate CleanLine(line: string)
  {
    '\n' !in line && line != "" && !EndsCr(line)
  }

  lemma {:induction false} SplitHasNoBreaks(s: string)
    ensures forall line :: line in Split(s, "\n") ==> '\n' !in line
    decreases |s|
  {
    var i := Index(s, "\n");
    IndexLeast(s, "\n");
    if i < 0 {
      forall j | 0 <= j < |s| ensures s[j] != '\n' {
        assert s[j] == '\n' ==> OccursAt(s, "\n", j);
      }
    } else {
      SplitHasNoBreaks(s[i + 1..]);
      forall j | 0 <= j < i ensures s[..i][j] != '\n' {
        assert s[j] == '\n' ==> OccursAt(s, "\n", j);
      }
    }
  }

  /** Joined clean lines form one block, free of "\r\n". */
  lemma {:induction false} JoinClean(lines: seq<string>)
    requires CleanLines(lines)
    ensures var text := Join(lines, "\n");
      text != "" && text[0] == lines[0][0] && OneBlock(text) && CrLfFree(text) && !EndsCr(text)
  {
    assert forall j :: 0 <= j < |lines[0]| ==> lines[0][j] in lines[0];
    if |lines| > 1 {
      var rest := Join(lines[1..], "\n");
      JoinClean(lines[1..]);
      assert lines[1][0] in lines[1];
      JoinTwo(lines[0], rest);
    }
  }

  lemma JoinTwo(line: string, rest: string)
    requires line != "" && !EndsCr(line) && '\n' !in line
    requires rest != "" && rest[0] != '\n' && OneBlock(rest) && CrLfFree(rest) && !EndsCr(rest)
    ensures var text := line + "\n" + rest; OneBlock(text) && CrLfFree(text) && !EndsCr(text)
  {
    assert forall j :: 0 <= j < |line| ==> line[j] in line;
    var text, n := line + "\n" + rest, |line| + 1;
    assert text[n..] == rest;
    forall j | 0 <= j < |text| - 1 ensures text[j] != '\n' || text[j + 1] != '\n' {
      assert j >= n ==> text[j] == rest[j - n] && text[j + 1] == rest[j - n + 1];
    }
    forall j ensures !CrLfAt(text, j) {
      assert j >= n ==> CrLfAt(text, j) == CrLfAt(rest, j - n);
    }
  }

  // ---------------------------------------------------------------- streams

  /** What a stream can hold between blank lines. */
  ghost predicate WellFormed(item: Item)
  {
    item != [] && forall i :: 0 <= i < |item| ==> Readable(item[i]) && CleanLine(LineText(item[i]))
  }

  function Stream(items: seq<Item>): string
  {
    if items == [] then "" else BlockText(items[0]) + SEP + Stream(items[1..])
  }

  function ResponsesOf(items: seq<Item>): seq<string>
  {
    if items == [] then []
    else
      var block := Meaning(items[0]);
      (if block.event == "response" then [block.data] else []) + ResponsesOf(items[1..])
  }

  /** The frames of a turn. */
  function FramesOf(items: seq<Item>): seq<Frame>
  {
    if items == [] then []
    else
      var block := Meaning(items[0]);
      (if block.event != "response" && block.hasData then [Frame(block.event, block.data)] else [])
      + FramesOf(items[1..])
  }

  /** The frames of an open-ended stream. */
  function OpenFramesOf(items: seq<Item>): seq<Frame>
  {
    if items == [] then []
    else
      var block := Meaning(items[0]);
      (if block.hasData then [Frame(block.event, block.data)] else []) + OpenFramesOf(items[1..])
  }

  function Texts(items: seq<Item>): seq<string>
  {
    if items == [] then [] else [BlockText(items[0])] + Texts(items[1..])
  }

  ghost predicate AllWellFormed(items: seq<Item>)
  {
    forall i :: 0 <= i < |items| ==> WellFormed(items[i])
  }

  lemma {:induction false} StreamBlocks(items: seq<Item>)
    requires AllWellFormed(items)
    ensures Split(Stream(items), SEP) == Texts(items) + [""]
    ensures CrLfFree(Stream(items))
  {
    hide Split, BlockText, WellFormed, CrLfFree, OneBlock, EndsCr;
    if items != [] {
      var text, rest := BlockText(items[0]), Stream(items[1..]);
      StreamBlocks(items[1..]);
      BlockTextClean(items[0]);
      SplitBlock(text, rest);
      CrLfFreeJoined(text, rest);
      assert [text] + (Texts(items[1..]) + [""]) == Texts(items) + [""];
    } else {
      NothingIsOneBlock();
      SplitLastBlock("");
    }
  }

  lemma NothingIsOneBlock()
    ensures OneBlock("") && CrLfFree("")
  {
  }

  lemma BlockTextClean(item: Item)
    requires WellFormed(item)
    ensures OneBlock(BlockText(item)) && CrLfFree(BlockText(item)) && !EndsCr(BlockText(item))
  {
    hide CleanLine, Readable;
    JoinClean(LineTexts(item));
  }

  lemma CrLfFreeJoined(text: string, rest: string)
    requires CrLfFree(text) && !EndsCr(text) && CrLfFree(rest)
    ensures CrLfFree(text + SEP + rest)
  {
    var all, n := text + SEP + rest, |text| + |SEP|;
    assert all[n..] == rest && all[..|text|] == text;
    forall j ensures !CrLfAt(all, j) {
      assert j >= n ==> CrLfAt(all, j) == CrLfAt(rest, j - n);
      assert j < |text| - 1 ==> CrLfAt(all, j) == CrLfAt(text, j);
    }
  }

  lemma ReadItem(item: Item)
    requires WellFormed(item)
    ensures ReadBlock(BlockText(item)) == Meaning(item)
  {
    hide ReadBlock, BlockText, Meaning, Readable, CleanLine;
    ReadWritten(item);
  }

  lemma {:induction false} ReadTexts(items: seq<Item>)
    requires AllWellFormed(items)
    ensures Responses(Texts(items) + [""]) == ResponsesOf(items)
    ensures ProgressFrames(Texts(items) + [""]) == FramesOf(items)
    ensures DataFrames(Texts(items) + [""]) == OpenFramesOf(items)
  {
    hide WellFormed, BlockText, Meaning, Responses, ProgressFrames, DataFrames, ReadBlock;
    if items == [] {
      ReadNothing();
      assert Texts(items) + [""] == [""];
    } else {
      ReadTexts(items[1..]);
      ReadItem(items[0]);
      var text, rest := BlockText(items[0]), Texts(items[1..]) + [""];
      FirstBlock(text, rest);
      FirstFrame(text, rest);
      assert Texts(items) + [""] == [text] + rest;
    }
  }

  lemma FirstFrame(text: string, rest: seq<string>)
    ensures var block := ReadBlock(text);
      DataFrames([text] + rest) == (if block.hasData then [Frame(block.event, block.data)] else []) + DataFrames(rest)
  {
    hide ReadBlock;
    DataFramesAppend([text], rest);
    OneMoreBlock([], text);
    NoFrames();
    assert [] + [text] == [text];
  }

  lemma ReadNothing()
    ensures Responses([""]) == [] && ProgressFrames([""]) == [] && DataFrames([""]) == []
  {
    SplitLast("", '\n');
    var none: seq<string> := [];
    assert [""][..0] == none;
  }

  /** `Responses` and `ProgressFrames` from the front. */
  lemma {:induction false} FirstBlock(text: string, rest: seq<string>)
    ensures var block := ReadBlock(text);
      && Responses([text] + rest) ==
           (if block.event == "response" then [block.data] else []) + Responses(rest)
      && ProgressFrames([text] + rest) ==
           (if block.event != "response" && block.hasData then [Frame(block.event, block.data)] else [])
           + ProgressFrames(rest)
  {
    hide ReadBlock, Responses, ProgressFrames;
    NoBlocks();
    if rest == [] {
      LastBlock([], text);
      assert [] + [text] == [text] == [text] + rest;
    } else {
      var front, last := rest[..|rest| - 1], Last(rest);
      FirstBlock(text, front);
      LastBlock(front, last);
      LastBlock([text] + front, last);
      assert front + [last] == rest && [text] + front + [last] == [text] + rest;
    }
  }

  lemma NoBlocks()
    ensures Responses([]) == [] && ProgressFrames([]) == []
  {
  }

  lemma LastBlock(front: seq<string>, text: string)
    ensures var block := ReadBlock(text);
      && Responses(front + [text]) ==
           Responses(front) + (if block.event == "response" then [block.data] else [])
      && ProgressFrames(front + [text]) ==
           ProgressFrames(front)
           + (if block.event != "response" && block.hasData then [Frame(block.event, block.data)] else [])
  {
    hide ReadBlock;
    assert (front + [text])[..|front|] == front;
  }

  lemma StreamIsClean(items: seq<Item>, chunks: seq<string>)
    requires AllWellFormed(items) && Flat(chunks) == Stream(items)
    ensures LiveBlocks(chunks) == WholeBlocks(Flat(chunks)) == Texts(items) + [""]
    ensures NoInnerCrCrLf(Flat(chunks))
  {
    var body := Stream(items);
    StreamBlocks(items);
    NormalizeShrinks(body);
    assert forall j :: CrCrLfAt(body, j) ==> CrLfAt(body, j + 1);
    CleanIsUndisturbed(chunks);
    AgreesIffUndisturbed(chunks);
  }

  /**
    The round trip. Whatever is written, cut into reads in any way, is read back: the outcome is the verdict
    on the responses written, and if there was exactly one valid response every progress frame reached the
    callback once and in order, ids, comments and other lines notwithstanding.
   */
  lemma RoundTrip(decode: Decoder, items: seq<Item>, chunks: seq<string>, limit: nat)
    requires AllWellFormed(items)
    requires Flat(chunks) == Stream(items) && |Stream(items)| <= limit
    ensures LiveTurn(decode, chunks, Eof, limit).0 == Verdict(decode, ResponsesOf(items))
    ensures LiveTurn(decode, chunks, Eof, limit).1 <= FramesOf(items)
    ensures Verdict(decode, ResponsesOf(items)).Terminal? ==>
              LiveTurn(decode, chunks, Eof, limit).1 == FramesOf(items)
  {
    hide Responses, ProgressFrames, LiveBlocks, WholeBlocks, LiveTurn, HandleAll, Conclude, DataFrames;
    StreamIsClean(items, chunks);
    ReadTexts(items);
    LiveVerdict(decode, chunks, limit);
    HandleAllVerdict(decode, LiveBlocks(chunks));
  }

  /** The same for an open-ended stream: every frame written reaches the callback, up to its first refusal. */
  lemma OpenRoundTrip(onFrame: Callback, items: seq<Item>, chunks: seq<string>, limit: nat) returns (reply: Reply)
    requires AllWellFormed(items)
    requires Flat(chunks) == Stream(items) && |Stream(items)| <= limit
    ensures UpToFirstRefusal(onFrame, OpenFramesOf(items), Delivery(OpenRun(onFrame, chunks, Eof, limit).1, reply))
    ensures OpenRun(onFrame, chunks, Eof, limit).0 ==
            if reply.Fail? then OpenFailed(FromCallback(reply.cause)) else Closed
  {
    hide DataFrames, LiveBlocks, WholeBlocks, OpenRun, Responses, ProgressFrames, UpToFirstRefusal;
    StreamIsClean(items, chunks);
    ReadTexts(items);
    assert chunks[..|chunks|] == chunks;
    reply := OpenRunIsWhole(onFrame, chunks, Eof, limit, |chunks|);
  }
}
