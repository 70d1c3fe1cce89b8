/**
 The evaluator's output as its producer sees it: texts with line endings, printed one after the
 other. Within the caps the consumer hands exactly the texts to the parser.
 */
module EvalOutputs {
  import opened Wrappers
  import opened EvalStreams

  /** A line as it was printed: the text and the bytes that end it. */
  datatype Line = Line(text: Bytes, ending: Bytes)

  /** Text without a newline and without a carriage return at its end, and one of the two line endings. */
  predicate Printed(line: Line) {
    && (forall i :: 0 <= i < |line.text| ==> line.text[i] != 10)
    && (line.text == [] || line.text[|line.text| - 1] != 13)
    && (line.ending == [10] || line.ending == [13, 10])
  }

  /** The printed lines one after the other. */
  function Flat(lines: seq<Line>): Bytes {
    if lines == [] then [] else lines[0].text + lines[0].ending + Flat(lines[1..])
  }

  /** What the parser makes of the non-empty texts, in order. */
  function Parsed<J, E>(parse: Bytes -> Option<Item<J, E>>, texts: seq<Bytes>): seq<Item<J, E>> {
    if texts == [] then []
    else
      (if texts[0] != [] && parse(texts[0]).Some? then [parse(texts[0]).value] else []) + Parsed(parse, texts[1..])
  }

  function JobsIn<J, E>(items: seq<Item<J, E>>): seq<J> {
    if items == [] then []
    else (match items[0] case Job(j) => [j] case Error(_) => []) + JobsIn(items[1..])
  }

  function ErrorsIn<J, E>(items: seq<Item<J, E>>): seq<E> {
    if items == [] then []
    else (match items[0] case Job(_) => [] case Error(e) => [e]) + ErrorsIn(items[1..])
  }

  function Texts(lines: seq<Line>): seq<Bytes> {
    seq(|lines|, i requires 0 <= i < |lines| => lines[i].text)
  }

  /** The raw lines: each printed line, and what follows the last newline, if anything. */
  function Raws(lines: seq<Line>, last: Bytes): seq<Bytes> {
    seq(|lines|, i requires 0 <= i < |lines| => lines[i].text + lines[i].ending) + if last == [] then [] else [last]
  }

  lemma LineLengthIs(data: Bytes, n: nat)
    requires 0 < n <= |data| && (data[n - 1] == NEWLINE || n == |data|)
    requires forall i :: 0 <= i < n - 1 ==> data[i] != NEWLINE
    ensures LineLength(data) == n
  {
  }

  lemma FirstPrinted(line: Line, rest: Bytes)
    requires Printed(line)
    ensures var raw := line.text + line.ending;
            LineLength(raw + rest) == |raw| && (raw + rest)[..|raw|] == raw && (raw + rest)[|raw|..] == rest
  {
    var raw := line.text + line.ending;
    forall i | 0 <= i < |raw| - 1 ensures (raw + rest)[i] != NEWLINE {
      if i < |line.text| { assert raw[i] == line.text[i]; } else { assert raw[i] == 13; }
    }
    LineLengthIs(raw + rest, |raw|);
  }

  lemma LinesOfLast(last: Bytes)
    requires forall i :: 0 <= i < |last| ==> last[i] != NEWLINE
    ensures Lines(last) == if last == [] then [] else [last]
  {
    if last != [] {
      LineLengthIs(last, |last|);
      assert last[..|last|] == last && last[|last|..] == [];
    }
  }

  lemma RawsCons(lines: seq<Line>, last: Bytes)
    requires lines != []
    ensures Raws(lines, last) == [lines[0].text + lines[0].ending] + Raws(lines[1..], last)
  {
  }

  /** Splitting the concatenation gives the printed lines back. */
  lemma {:induction false} LinesOfFlat(lines: seq<Line>, last: Bytes)
    requires forall i :: 0 <= i < |lines| ==> Printed(lines[i])
    requires forall i :: 0 <= i < |last| ==> last[i] != NEWLINE
    ensures Lines(Flat(lines) + last) == Raws(lines, last)
    decreases |lines|
  {
    if lines == [] {
      assert Flat(lines) + last == last;
      LinesOfLast(last);
      assert Raws(lines, last) == if last == [] then [] else [last];
    } else {
      var raw, rest := lines[0].text + lines[0].ending, Flat(lines[1..]) + last;
      assert Flat(lines) + last == raw + rest;
      FirstPrinted(lines[0], rest);
      LinesOfFlat(lines[1..], last);
      RawsCons(lines, last);
    }
  }

  /** The text of a printed line is what the parser gets. */
  lemma TextOfPrinted(line: Line)
    requires Printed(line)
    ensures Text(line.text + line.ending) == line.text
  {
    var raw := line.text + line.ending;
    if line.ending == [10] {
      assert raw[..|raw| - 1] == line.text;
    } else {
      assert raw[..|raw| - 1] == line.text + [13];
      assert (line.text + [13])[..|line.text|] == line.text;
    }
  }

  lemma TextOfLast(last: Bytes)
    requires forall i :: 0 <= i < |last| ==> last[i] != 10
    ensures Text(last) == last
  {
  }

  lemma ParsedCons<J, E>(parse: Bytes -> Option<Item<J, E>>, texts: seq<Bytes>, text: Bytes)
    ensures Parsed(parse, [text] + texts) ==
            (if text != [] && parse(text).Some? then [parse(text).value] else []) + Parsed(parse, texts)
  {
    var all := [text] + texts;
    assert all[0] == text && all[1..] == texts;
  }

  lemma ItemsInCons<J, E>(first: seq<Item<J, E>>, rest: seq<Item<J, E>>)
    requires |first| <= 1
    ensures JobsIn(first + rest) == JobsIn(first) + JobsIn(rest)
    ensures ErrorsIn(first + rest) == ErrorsIn(first) + ErrorsIn(rest)
  {
    if first == [] {
      assert first + rest == rest;
    } else {
      var all := first + rest;
      assert all[0] == first[0] && all[1..] == rest && first[1..] == [];
    }
  }

  /** If each raw line has the given text, the items are what the parser makes of the texts. */
  lemma {:induction false} ItemsOfTexts<J, E>(caps: Caps<J, E>, raws: seq<Bytes>, texts: seq<Bytes>)
    requires |raws| == |texts| && forall i :: 0 <= i < |raws| ==> Text(raws[i]) == texts[i]
    ensures JobsOf(caps, raws) == JobsIn(Parsed(caps.parse, texts))
    ensures ErrorsOf(caps, raws) == ErrorsIn(Parsed(caps.parse, texts))
    decreases |raws|
  {
    if raws != [] {
      ItemsOfTexts(caps, raws[1..], texts[1..]);
      assert texts == [texts[0]] + texts[1..];
      ParsedCons(caps.parse, texts[1..], texts[0]);
      var first := if texts[0] != [] && caps.parse(texts[0]).Some? then [caps.parse(texts[0]).value] else [];
      ItemsInCons(first, Parsed(caps.parse, texts[1..]));
    }
  }

  lemma RawsHaveTexts(lines: seq<Line>, last: Bytes, i: nat)
    requires forall k :: 0 <= k < |lines| ==> Printed(lines[k])
    requires forall k :: 0 <= k < |last| ==> last[k] != 10
    requires i < |Raws(lines, last)|
    ensures |Raws(lines, last)| == |AllTexts(lines, last)| && Text(Raws(lines, last)[i]) == AllTexts(lines, last)[i]
  {
    if i < |lines| { TextOfPrinted(lines[i]); } else { TextOfLast(last); }
  }

  function AllTexts(lines: seq<Line>, last: Bytes): seq<Bytes> {
    Texts(lines) + if last == [] then [] else [last]
  }

  lemma {:induction false} PartsCount<J, E>(items: seq<Item<J, E>>)
    ensures |JobsIn(items)| + |ErrorsIn(items)| == |items|
  {
    if items != [] { PartsCount(items[1..]); }
  }

  /** Without a cap hit every byte is counted. */
  lemma {:induction false} UncappedBytes<J, E>(caps: Caps<J, E>, raws: seq<Bytes>, acc: Outcome<J, E>)
    requires acc.truncation == NoCap && Consume(caps, false, raws, acc).truncation == NoCap
    ensures Consume(caps, false, raws, acc).bytesRead == if raws == [] then acc.bytesRead else SatAdd(acc.bytesRead, TotalBytes(raws))
    decreases |raws|
  {
    if raws != [] {
      var next := AfterLine(caps, raws[0], acc);
      UncappedBytes(caps, raws[1..], next);
    }
  }

  /** The lines and what follows them, within the caps: as the producer of the output sees them. */
  ghost predicate WithinCaps<J(!new), E(!new)>(caps: Caps<J, E>, lines: seq<Line>, last: Bytes) {
    && (forall i :: 0 <= i < |lines| ==> |lines[i].text| + |lines[i].ending| <= caps.maxLine + 1)
    && |last| <= caps.maxLine
    && |Flat(lines) + last| <= caps.maxBytes && |Flat(lines) + last| < 0x1_0000_0000_0000_0000
    && (var n := |Parsed(caps.parse, AllTexts(lines, last))|; n < caps.maxEntries || n == 0)
  }

  /** Printed lines, and a last one without a newline. */
  ghost predicate Output(lines: seq<Line>, last: Bytes) {
    (forall i :: 0 <= i < |lines| ==> Printed(lines[i])) && (forall i :: 0 <= i < |last| ==> last[i] != 10)
  }

  lemma ItemsOfOutput<J(!new), E(!new)>(caps: Caps<J, E>, lines: seq<Line>, last: Bytes)
    requires Output(lines, last)
    ensures JobsOf(caps, Raws(lines, last)) == JobsIn(Parsed(caps.parse, AllTexts(lines, last)))
    ensures ErrorsOf(caps, Raws(lines, last)) == ErrorsIn(Parsed(caps.parse, AllTexts(lines, last)))
    ensures Items(caps, Raws(lines, last)) == |Parsed(caps.parse, AllTexts(lines, last))|
  {
    var raws, texts := Raws(lines, last), AllTexts(lines, last);
    assert |raws| == |texts|;
    forall i | 0 <= i < |raws| ensures Text(raws[i]) == texts[i] { RawsHaveTexts(lines, last, i); }
    ItemsOfTexts(caps, raws, texts);
    PartsCount(Parsed(caps.parse, texts));
  }

  lemma OutputFits<J(!new), E(!new)>(caps: Caps<J, E>, lines: seq<Line>, last: Bytes)
    requires Output(lines, last) && WithinCaps(caps, lines, last)
    ensures AllFit(caps.maxLine, Raws(lines, last))
  {
    var raws := Raws(lines, last);
    forall i | 0 <= i < |raws| ensures Fits(caps.maxLine, raws[i]) {
      if i < |lines| { assert raws[i][|raws[i]| - 1] == 10; }
    }
  }

  lemma OutputIsUncapped<J(!new), E(!new)>(caps: Caps<J, E>, lines: seq<Line>, last: Bytes)
    requires Output(lines, last) && WithinCaps(caps, lines, last)
    ensures Consume(caps, false, Raws(lines, last), Start()).truncation == NoCap
  {
    OutputFits(caps, lines, last);
    ItemsOfOutput(caps, lines, last);
    LinesOfFlat(lines, last);
    LinesKeepBytes(Flat(lines) + last);
    UncappedIffRoom(caps, Raws(lines, last), Start());
  }

  lemma UncappedStep<J, E>(caps: Caps<J, E>, raws: seq<Bytes>, acc: Outcome<J, E>)
    requires raws != [] && acc.truncation == NoCap && Consume(caps, false, raws, acc).truncation == NoCap
    ensures AfterLine(caps, raws[0], acc).truncation == NoCap
    ensures Consume(caps, false, raws, acc) == Consume(caps, false, raws[1..], AfterLine(caps, raws[0], acc))
  {
  }

  lemma Associates<T>(a: seq<T>, b: seq<T>, c: seq<T>)
    ensures a + b + c == a + (b + c) && [] + c == c && a + [] == a
  {
  }

  lemma PushParts<J, E>(acc: Outcome<J, E>, item: Option<Item<J, E>>)
    ensures Push(acc, item).jobs == acc.jobs + JobPart(item) && Push(acc, item).errors == acc.errors + ErrorPart(item)
  {
    Associates(acc.jobs, [], []);
    Associates(acc.errors, [], []);
  }

  lemma AfterLineItems<J, E>(caps: Caps<J, E>, raws: seq<Bytes>, acc: Outcome<J, E>)
    requires raws != []
    ensures AfterLine(caps, raws[0], acc).jobs + JobsOf(caps, raws[1..]) == acc.jobs + JobsOf(caps, raws)
    ensures AfterLine(caps, raws[0], acc).errors + ErrorsOf(caps, raws[1..]) == acc.errors + ErrorsOf(caps, raws)
  {
    var item := ItemOf(caps, raws[0]);
    PushParts(acc.(bytesRead := SatAdd(acc.bytesRead, |raws[0]|)), item);
    Associates(acc.jobs, JobPart(item), JobsOf(caps, raws[1..]));
    Associates(acc.errors, ErrorPart(item), ErrorsOf(caps, raws[1..]));
  }

  lemma {:induction false} UncappedItems<J, E>(caps: Caps<J, E>, raws: seq<Bytes>, acc: Outcome<J, E>)
    requires acc.truncation == NoCap && Consume(caps, false, raws, acc).truncation == NoCap
    ensures Consume(caps, false, raws, acc).jobs == acc.jobs + JobsOf(caps, raws)
    ensures Consume(caps, false, raws, acc).errors == acc.errors + ErrorsOf(caps, raws)
    decreases |raws|
  {
    if raws == [] {
      assert acc.jobs + [] == acc.jobs && acc.errors + [] == acc.errors;
    } else {
      UncappedStep(caps, raws, acc);
      UncappedItems(caps, raws[1..], AfterLine(caps, raws[0], acc));
      AfterLineItems(caps, raws, acc);
    }
  }

  /**
   For every printed output within the caps, with either line ending and with or without a last
   line that is not ended: the outcome holds exactly what the parser makes of the non-empty
   texts, in order, and counts every byte.
   */
  lemma OutputIsParsed<J(!new), E(!new)>(caps: Caps<J, E>, lines: seq<Line>, last: Bytes)
    requires Output(lines, last) && WithinCaps(caps, lines, last)
    ensures var items := Parsed(caps.parse, AllTexts(lines, last));
            Consume(caps, false, Lines(Flat(lines) + last), Start())
            == Outcome(JobsIn(items), ErrorsIn(items), |Flat(lines) + last|, NoCap)
  {
    var raws := Raws(lines, last);
    LinesOfFlat(lines, last);
    OutputIsUncapped(caps, lines, last);
    ItemsOfOutput(caps, lines, last);
    UncappedItems(caps, raws, Start());
    UncappedBytes(caps, raws, Start());
    LinesKeepBytes(Flat(lines) + last);
  }

  /** A first line that is longer than the line cap, and not the byte cap, stops the run before anything is kept. */
  lemma LongLineStops<J, E>(caps: Caps<J, E>, fails: bool, text: Bytes, rest: Bytes)
    requires |text| == caps.maxLine + 1 <= caps.maxBytes && |text| < 0x1_0000_0000_0000_0000
    requires forall i :: 0 <= i < |text| ==> text[i] != 10
    ensures Consume(caps, fails, Lines(text + rest), Start()) == Outcome([], [], |text|, MaxLineBytes)
  {
    var data := text + rest;
    var n := LineLength(data);
    assert forall i :: 0 <= i < |text| ==> data[i] == text[i];
    LinesCons(data);
    assert |data[..n]| == n && data[..n][n - 1] == data[n - 1];
    LongIsNotLost(caps.maxLine, fails, Lines(data));
  }

  lemma LongIsNotLost(maxLine: nat, fails: bool, raws: seq<Bytes>)
    requires raws != [] && |raws[0]| > maxLine
    ensures !Lost(maxLine, fails, raws)
  {
  }

  /** Without a cap hit the counter has every byte, up to the largest 64-bit number. */
  lemma CounterSaturates<J, E>(caps: Caps<J, E>, data: Bytes)
    requires Consume(caps, false, Lines(data), Start()).truncation == NoCap
    ensures Consume(caps, false, Lines(data), Start()).bytesRead
         == if |data| <= 0xFFFF_FFFF_FFFF_FFFF then |data| else 0xFFFF_FFFF_FFFF_FFFF
  {
    UncappedBytes(caps, Lines(data), Start());
    LinesKeepBytes(data);
  }

  // ---------------------------------------------------------------- broken streams

  lemma LostLast(maxLine: nat, raws: seq<Bytes>)
    requires raws != [] && Terminated(raws[0])
    ensures !Lost(maxLine, true, raws)
  {
  }

  /** A read that breaks in an unended line loses that line and nothing else. */
  lemma {:induction false} BrokenConsume<J, E>(caps: Caps<J, E>, raws: seq<Bytes>, last: Bytes, acc: Outcome<J, E>)
    requires (forall i :: 0 <= i < |raws| ==> Terminated(raws[i])) && !Terminated(last) && |last| <= caps.maxLine
    ensures Consume(caps, true, raws + if last == [] then [] else [last], acc) == Consume(caps, false, raws, acc)
    decreases |raws|
  {
    var all := raws + if last == [] then [] else [last];
    if raws == [] {
      if last != [] { assert all == [last]; }
    } else {
      assert all[0] == raws[0] && all[1..] == raws[1..] + if last == [] then [] else [last];
      LostLast(caps.maxLine, all);
      var (next, stop) := ConsumeOne(caps, raws[0], acc);
      if !stop { BrokenConsume(caps, raws[1..], last, next); }
    }
  }

  lemma BrokenRaws(lines: seq<Line>, last: Bytes)
    requires Output(lines, last)
    ensures var raws := Raws(lines, []);
            && Raws(lines, last) == raws + (if last == [] then [] else [last])
            && (forall i :: 0 <= i < |raws| ==> Terminated(raws[i])) && !Terminated(last)
  {
    var raws := Raws(lines, []);
    forall i | 0 <= i < |raws| ensures Terminated(raws[i]) { assert raws[i][|raws[i]| - 1] == 10; }
    assert raws + (if last == [] then [] else [last]) == Raws(lines, last);
  }

  lemma BrokenIsEnded<J(!new), E(!new)>(caps: Caps<J, E>, lines: seq<Line>, last: Bytes)
    requires Output(lines, last) && |last| <= caps.maxLine
    ensures Consume(caps, true, Lines(Flat(lines) + last), Start()) == Consume(caps, false, Lines(Flat(lines) + []), Start())
  {
    LinesOfFlat(lines, last);
    LinesOfFlat(lines, []);
    BrokenRaws(lines, last);
    BrokenConsume(caps, Raws(lines, []), last, Start());
  }

  /** The outcome of a stream that breaks: that of the ended lines alone. */
  lemma BrokenOutputIsParsed<J(!new), E(!new)>(caps: Caps<J, E>, lines: seq<Line>, last: Bytes)
    requires Output(lines, last) && WithinCaps(caps, lines, []) && |last| <= caps.maxLine
    ensures var items := Parsed(caps.parse, Texts(lines));
            Consume(caps, true, Lines(Flat(lines) + last), Start()) == Outcome(JobsIn(items), ErrorsIn(items), |Flat(lines)|, NoCap)
  {
    BrokenIsEnded(caps, lines, last);
    OutputIsParsed(caps, lines, []);
    assert Flat(lines) + [] == Flat(lines) && AllTexts(lines, []) == Texts(lines);
  }
}
