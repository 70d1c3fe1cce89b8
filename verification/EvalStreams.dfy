/**
 The consumer of the evaluator's output stream. It reads line by line through a limited
 reader and stops at the first cap it hits; it is proved to refine splitting the whole
 output into lines and parsing each.
 */
module EvalStreams {
  import opened Wrappers

  type Byte = x: nat | x < 256
  type Bytes = seq<Byte>

  const NEWLINE: Byte := 10
  const RETURN: Byte := 13
  const MAX_U64: nat := 0xFFFF_FFFF_FFFF_FFFF

  /** A parsed line is a derivation or an evaluation error. */
  datatype Item<J, E> = Job(job: J) | Error(error: E)

  datatype Truncation = NoCap | MaxEntries | MaxBytes | MaxLineBytes

  datatype Outcome<J, E> = Outcome(jobs: seq<J>, errors: seq<E>, bytesRead: nat, truncation: Truncation)

  /** `parse` stands for UTF-8 validation and JSON decoding of a non-empty line. */
  datatype Caps<!J, !E> = Caps(maxEntries: nat, maxBytes: nat, maxLine: nat, parse: Bytes -> Option<Item<J, E>>)

  function SatAdd(x: nat, y: nat): nat {
    if x + y > MAX_U64 then MAX_U64 else x + y
  }

  function Min(x: nat, y: nat): nat {
    if x < y then x else y
  }

  // ---------------------------------------------------------------- lines

  /** How many bytes the first line takes, with its newline if it has one. */
  function LineLength(data: Bytes): (n: nat)
    ensures n <= |data| && (data != [] ==> n > 0)
    ensures n == |data| || data[n - 1] == NEWLINE
    ensures forall i :: 0 <= i < n - 1 ==> data[i] != NEWLINE
  {
    if data == [] then 0 else if data[0] == NEWLINE then 1 else 1 + LineLength(data[1..])
  }

  /** The output cut after every newline. */
  function Lines(data: Bytes): seq<Bytes>
    decreases |data|
  {
    if data == [] then [] else [data[..LineLength(data)]] + Lines(data[LineLength(data)..])
  }

  predicate Terminated(raw: Bytes) {
    raw != [] && raw[|raw| - 1] == NEWLINE
  }

  /** The line without its newline, and without a carriage return before the newline. */
  function Text(raw: Bytes): Bytes {
    if !Terminated(raw) then raw
    else
      var line := raw[..|raw| - 1];
      if line != [] && line[|line| - 1] == RETURN then line[..|line| - 1] else line
  }

  function ItemOf<J, E>(caps: Caps<J, E>, raw: Bytes): Option<Item<J, E>> {
    if Text(raw) == [] then None else caps.parse(Text(raw))
  }

  function JobPart<J, E>(item: Option<Item<J, E>>): seq<J> {
    match item case Some(Job(j)) => [j] case _ => []
  }

  function ErrorPart<J, E>(item: Option<Item<J, E>>): seq<E> {
    match item case Some(Error(e)) => [e] case _ => []
  }

  function JobsOf<J, E>(caps: Caps<J, E>, raws: seq<Bytes>): seq<J> {
    if raws == [] then []
    else JobPart(ItemOf(caps, raws[0])) + JobsOf(caps, raws[1..])
  }

  function ErrorsOf<J, E>(caps: Caps<J, E>, raws: seq<Bytes>): seq<E> {
    if raws == [] then []
    else ErrorPart(ItemOf(caps, raws[0])) + ErrorsOf(caps, raws[1..])
  }

  // ---------------------------------------------------------------- the consumer

  /** The outcome with one more line in it. */
  function Push<J, E>(acc: Outcome<J, E>, item: Option<Item<J, E>>): Outcome<J, E> {
    match item
    case None => acc
    case Some(Job(j)) => acc.(jobs := acc.jobs + [j])
    case Some(Error(e)) => acc.(errors := acc.errors + [e])
  }

  function Entries<J, E>(acc: Outcome<J, E>): nat {
    |acc.jobs| + |acc.errors|
  }

  /** A line fits if its text and newline do; an unterminated one must not exceed the cap. */
  predicate Fits(maxLine: nat, raw: Bytes) {
    |raw| <= maxLine || (|raw| == maxLine + 1 && Terminated(raw))
  }

  /** A read error hits the unfinished last line, unless the limited reader stops before it. */
  predicate Lost(maxLine: nat, fails: bool, raws: seq<Bytes>) {
    fails && |raws| == 1 && !Terminated(raws[0]) && |raws[0]| <= maxLine
  }

  /** One whole line, with the caps checked in this order: bytes, line length, entries. */
  function ConsumeOne<J, E>(caps: Caps<J, E>, raw: Bytes, acc: Outcome<J, E>): (Outcome<J, E>, bool) {
    var acc1 := acc.(bytesRead := SatAdd(acc.bytesRead, Min(|raw|, caps.maxLine + 1)));
    if acc1.bytesRead > caps.maxBytes then (acc1.(truncation := MaxBytes), true)
    else if !Fits(caps.maxLine, raw) then (acc1.(truncation := MaxLineBytes), true)
    else
      var item := ItemOf(caps, raw);
      var acc2 := Push(acc1, item);
      if item.Some? && Entries(acc2) >= caps.maxEntries then (acc2.(truncation := MaxEntries), true) else (acc2, false)
  }

  /** Line by line, until a cap is hit, a read breaks or the lines are used up. */
  function Consume<J, E>(caps: Caps<J, E>, fails: bool, raws: seq<Bytes>, acc: Outcome<J, E>): Outcome<J, E>
    decreases |raws|
  {
    if raws == [] || Lost(caps.maxLine, fails, raws) then acc
    else
      var (next, stop) := ConsumeOne(caps, raws[0], acc);
      if stop then next else Consume(caps, fails, raws[1..], next)
  }

  function Start<J, E>(): Outcome<J, E> {
    Outcome([], [], 0, NoCap)
  }

  /** Cutting at the limit commutes with finding the end of the line. */
  lemma {:induction false} LimitedLine(data: Bytes, limit: nat)
    ensures LineLength(data[..Min(limit, |data|)]) == Min(LineLength(data), limit)
    decreases |data|
  {
    var cut := data[..Min(limit, |data|)];
    if data != [] && limit > 0 {
      assert cut[0] == data[0];
      assert cut[1..] == data[1..][..Min(limit - 1, |data[1..]|)];
      LimitedLine(data[1..], limit - 1);
    }
  }

  lemma LinesCons(data: Bytes)
    requires data != []
    ensures Lines(data) == [data[..LineLength(data)]] + Lines(data[LineLength(data)..])
    ensures |Lines(data)| == 1 <==> LineLength(data) == |data|
  {
    var rest := data[LineLength(data)..];
    if rest != [] { assert Lines(rest) != []; }
  }

  /** What the loop does with a filled buffer; the flag says whether it stops there. */
  function StepLine<J, E>(caps: Caps<J, E>, buf: Bytes, acc: Outcome<J, E>): (Outcome<J, E>, bool) {
    var acc1 := acc.(bytesRead := SatAdd(acc.bytesRead, |buf|));
    if acc1.bytesRead > caps.maxBytes then (acc1.(truncation := MaxBytes), true)
    else if !Terminated(buf) && |buf| > caps.maxLine then (acc1.(truncation := MaxLineBytes), true)
    else
      var item := ItemOf(caps, buf);
      var acc2 := Push(acc1, item);
      if item.Some? && Entries(acc2) >= caps.maxEntries then (acc2.(truncation := MaxEntries), true) else (acc2, false)
  }

  /** The first line as far as the limited reader takes it. */
  function Taken(maxLine: nat, rest: Bytes): Bytes {
    rest[..Min(LineLength(rest), maxLine + 1)]
  }

  /** The buffer holds the whole line exactly if the line fits. */
  lemma TakenIsWholeIff(maxLine: nat, rest: Bytes)
    requires rest != []
    ensures var buf, raw := Taken(maxLine, rest), rest[..LineLength(rest)];
            && |buf| == Min(|raw|, maxLine + 1)
            && ((Terminated(buf) || |buf| <= maxLine) <==> Fits(maxLine, raw))
            && (Fits(maxLine, raw) ==> buf == raw)
  {
    var n := LineLength(rest);
    if n <= maxLine + 1 {
      assert Taken(maxLine, rest) == rest[..n];
    } else {
      assert Taken(maxLine, rest)[maxLine] == rest[maxLine];
    }
  }

  /** The buffer leads to the same result as the whole line. */
  lemma StepIsConsumeOne<J, E>(caps: Caps<J, E>, rest: Bytes, acc: Outcome<J, E>)
    requires rest != []
    ensures StepLine(caps, Taken(caps.maxLine, rest), acc) == ConsumeOne(caps, rest[..LineLength(rest)], acc)
    ensures !ConsumeOne(caps, rest[..LineLength(rest)], acc).1 ==> |Taken(caps.maxLine, rest)| == LineLength(rest)
  {
    TakenIsWholeIff(caps.maxLine, rest);
  }

  /** One turn of the loop is one line of the simple form. */
  lemma StepIsConsume<J, E>(caps: Caps<J, E>, fails: bool, rest: Bytes, acc: Outcome<J, E>)
    requires rest != [] && !Lost(caps.maxLine, fails, Lines(rest))
    ensures var (next, stop) := StepLine(caps, Taken(caps.maxLine, rest), acc);
            Consume(caps, fails, Lines(rest), acc) ==
            if stop then next else Consume(caps, fails, Lines(rest[|Taken(caps.maxLine, rest)|..]), next)
  {
    LinesCons(rest);
    StepIsConsumeOne(caps, rest, acc);
    assert Lines(rest)[0] == rest[..LineLength(rest)];
    assert Lines(rest)[1..] == Lines(rest[LineLength(rest)..]);
  }

  /** The reader breaks before the line is complete, in terms of the buffer and of the lines. */
  lemma LostIff(maxLine: nat, fails: bool, rest: Bytes)
    requires rest != []
    ensures var buf := Taken(maxLine, rest);
            Lost(maxLine, fails, Lines(rest)) <==> fails && |buf| == |rest| && |buf| <= maxLine && !Terminated(buf)
  {
    LinesCons(rest);
    var n := LineLength(rest);
    if n == |rest| { assert rest[..n] == rest; }
    if n <= maxLine { assert Taken(maxLine, rest) == rest[..n]; }
  }

  /** Reads up to a newline from a reader that is limited to one byte more than the line cap. */
  method ReadLine(reader: Bytes, maxLine: nat) returns (buf: Bytes)
    ensures buf == Taken(maxLine, reader)
  {
    var limited := reader[..Min(maxLine + 1, |reader|)];
    LimitedLine(reader, maxLine + 1);
    buf := limited[..LineLength(limited)];
  }

  /**
   The streaming loop. `data` is what the stream delivers before it ends or, if `fails`,
   before a read breaks; `reader` is what is left of it.
   */
  method ProcessOutput<J, E>(caps: Caps<J, E>, data: Bytes, fails: bool) returns (r: Outcome<J, E>)
    ensures r == Consume(caps, fails, Lines(data), Start())
  {
    r := Start();
    var reader := data;
    while reader != []
      invariant Consume(caps, fails, Lines(reader), r) == Consume(caps, fails, Lines(data), Start())
      decreases |reader|
    {
      var buf := ReadLine(reader, caps.maxLine);
      LostIff(caps.maxLine, fails, reader);
      if fails && |buf| == |reader| && |buf| <= caps.maxLine && !Terminated(buf) {
        return;
      }
      StepIsConsume(caps, fails, reader, r);
      var (next, stop) := StepLine(caps, buf, r);
      r := next;
      if stop { return; }
      reader := reader[|buf|..];
    }
  }

  // ---------------------------------------------------------------- what the outcome means

  lemma {:induction false} JobsSnoc<J, E>(caps: Caps<J, E>, raws: seq<Bytes>, raw: Bytes)
    ensures JobsOf(caps, raws + [raw]) == JobsOf(caps, raws) + JobsOf(caps, [raw])
  {
    if raws == [] {
      assert raws + [raw] == [raw];
    } else {
      assert (raws + [raw])[1..] == raws[1..] + [raw] && (raws + [raw])[0] == raws[0];
      JobsSnoc(caps, raws[1..], raw);
    }
  }

  lemma {:induction false} ErrorsSnoc<J, E>(caps: Caps<J, E>, raws: seq<Bytes>, raw: Bytes)
    ensures ErrorsOf(caps, raws + [raw]) == ErrorsOf(caps, raws) + ErrorsOf(caps, [raw])
  {
    if raws == [] {
      assert raws + [raw] == [raw];
    } else {
      assert (raws + [raw])[1..] == raws[1..] + [raw] && (raws + [raw])[0] == raws[0];
      ErrorsSnoc(caps, raws[1..], raw);
    }
  }

  lemma PushIsSnoc<J, E>(caps: Caps<J, E>, done: seq<Bytes>, raw: Bytes, acc: Outcome<J, E>)
    requires acc.jobs == JobsOf(caps, done) && acc.errors == ErrorsOf(caps, done)
    ensures var next := Push(acc, ItemOf(caps, raw));
            next.jobs == JobsOf(caps, done + [raw]) && next.errors == ErrorsOf(caps, done + [raw])
  {
    JobsSnoc(caps, done, raw);
    ErrorsSnoc(caps, done, raw);
    assert JobsOf(caps, [raw]) == JobPart(ItemOf(caps, raw)) && ErrorsOf(caps, [raw]) == ErrorPart(ItemOf(caps, raw));
  }

  /** The result holds exactly the items of the first `k` lines. */
  ghost predicate Holds<J(!new), E(!new)>(caps: Caps<J, E>, r: Outcome<J, E>, raws: seq<Bytes>, k: nat) {
    k <= |raws| && r.jobs == JobsOf(caps, raws[..k]) && r.errors == ErrorsOf(caps, raws[..k])
  }

  /** How many lines a run without a cap gets to see. */
  function Visible(caps: nat, fails: bool, raws: seq<Bytes>): nat {
    if raws != [] && Lost(caps, fails, raws[|raws| - 1..]) then |raws| - 1 else |raws|
  }

  /** The caps bound what is kept. */
  predicate Bounded<J, E>(caps: Caps<J, E>, r: Outcome<J, E>) {
    && r.bytesRead <= caps.maxBytes + caps.maxLine + 1
    && (Entries(r) <= caps.maxEntries || Entries(r) <= 1)
  }

  /** Nothing was kept that the caps forbid, so far. */
  predicate Within<J, E>(caps: Caps<J, E>, acc: Outcome<J, E>) {
    acc.bytesRead <= caps.maxBytes && (Entries(acc) < caps.maxEntries || Entries(acc) == 0)
  }

  lemma {:induction false} ConsumeIsBounded<J, E>(caps: Caps<J, E>, fails: bool, raws: seq<Bytes>, acc: Outcome<J, E>)
    requires Within(caps, acc)
    ensures Bounded(caps, Consume(caps, fails, raws, acc))
    decreases |raws|
  {
    if raws != [] {
      var acc1 := acc.(bytesRead := SatAdd(acc.bytesRead, Min(|raws[0]|, caps.maxLine + 1)));
      var acc2 := Push(acc1, ItemOf(caps, raws[0]));
      if Within(caps, acc2) { ConsumeIsBounded(caps, fails, raws[1..], acc2); }
    }
  }

  /** Where the consumption of the lines from `k` on ends, and with what. */
  lemma {:induction false} ConsumeHolds<J(!new), E(!new)>(caps: Caps<J, E>, fails: bool, all: seq<Bytes>, k: nat, acc: Outcome<J, E>) returns (last: nat)
    requires Holds(caps, acc, all, k) && acc.truncation == NoCap && k <= Visible(caps.maxLine, fails, all)
    ensures var r := Consume(caps, fails, all[k..], acc);
            && k <= last && Holds(caps, r, all, last)
            && (r.truncation == NoCap ==> last == Visible(caps.maxLine, fails, all))
    decreases |all| - k
  {
    var raws := all[k..];
    last := k;
    if raws != [] {
      assert raws[0] == all[k] && raws[1..] == all[k + 1..] && (|raws| == 1 ==> raws == all[|all| - 1..]);
      if !Lost(caps.maxLine, fails, raws) {
        var acc1 := acc.(bytesRead := SatAdd(acc.bytesRead, Min(|raws[0]|, caps.maxLine + 1)));
        if acc1.bytesRead <= caps.maxBytes && Fits(caps.maxLine, raws[0]) {
          var acc2 := Push(acc1, ItemOf(caps, raws[0]));
          HoldsOneMore(caps, acc1, all, k);
          if ItemOf(caps, raws[0]).Some? && Entries(acc2) >= caps.maxEntries {
            last := k + 1;
          } else {
            last := ConsumeHolds(caps, fails, all, k + 1, acc2);
          }
        }
      }
    }
  }

  lemma HoldsOneMore<J(!new), E(!new)>(caps: Caps<J, E>, acc: Outcome<J, E>, all: seq<Bytes>, k: nat)
    requires Holds(caps, acc, all, k) && k < |all|
    ensures Holds(caps, Push(acc, ItemOf(caps, all[k])), all, k + 1)
  {
    PushIsSnoc(caps, all[..k], all[k], acc);
    assert all[..k + 1] == all[..k] + [all[k]];
  }

  /**
   For every stream and all caps: the outcome holds the parsed items of a beginning of the
   lines, in order; without a cap hit it holds those of all lines, or of all but the line in
   which a read broke; and it never holds more than the caps allow, up to one entry and one line.
   */
  lemma OutcomeIsPrefix<J(!new), E(!new)>(caps: Caps<J, E>, fails: bool, data: Bytes) returns (k: nat)
    ensures var r := Consume(caps, fails, Lines(data), Start());
            && Holds(caps, r, Lines(data), k) && Bounded(caps, r)
            && (r.truncation == NoCap ==> k == Visible(caps.maxLine, fails, Lines(data)))
  {
    var all := Lines(data);
    assert all[..0] == [] && all[0..] == all;
    k := ConsumeHolds(caps, fails, all, 0, Start());
    ConsumeIsBounded(caps, fails, all, Start());
  }

  // ---------------------------------------------------------------- when a cap is hit

  function TotalBytes(raws: seq<Bytes>): nat {
    if raws == [] then 0 else |raws[0]| + TotalBytes(raws[1..])
  }

  function Items<J, E>(caps: Caps<J, E>, raws: seq<Bytes>): nat {
    |JobsOf(caps, raws)| + |ErrorsOf(caps, raws)|
  }

  predicate AllFit(maxLine: nat, raws: seq<Bytes>) {
    forall i :: 0 <= i < |raws| ==> Fits(maxLine, raws[i])
  }

  /** None of the three caps stands in the way of these lines. */
  predicate Room<J, E>(caps: Caps<J, E>, raws: seq<Bytes>, acc: Outcome<J, E>) {
    && AllFit(caps.maxLine, raws)
    && SatAdd(acc.bytesRead, TotalBytes(raws)) <= caps.maxBytes
    && (Entries(acc) + Items(caps, raws) < caps.maxEntries || Items(caps, raws) == 0)
  }

  lemma ItemsCons<J, E>(caps: Caps<J, E>, raws: seq<Bytes>)
    requires raws != []
    ensures Items(caps, raws) == (if ItemOf(caps, raws[0]).Some? then 1 else 0) + Items(caps, raws[1..])
  {
  }

  /** Room for all lines is room for the first one and then for the rest. */
  lemma RoomCons<J, E>(caps: Caps<J, E>, raws: seq<Bytes>, acc: Outcome<J, E>)
    requires raws != [] && Fits(caps.maxLine, raws[0]) && Within(caps, acc)
    ensures var item := ItemOf(caps, raws[0]);
            var acc1 := acc.(bytesRead := SatAdd(acc.bytesRead, |raws[0]|));
            var acc2 := Push(acc1, item);
            Room(caps, raws, acc) <==>
            && acc1.bytesRead <= caps.maxBytes
            && !(item.Some? && Entries(acc2) >= caps.maxEntries)
            && Room(caps, raws[1..], acc2)
  {
    ItemsCons(caps, raws);
    assert raws == [raws[0]] + raws[1..];
  }

  lemma {:induction false} UncappedIffRoom<J, E>(caps: Caps<J, E>, raws: seq<Bytes>, acc: Outcome<J, E>)
    requires acc.truncation == NoCap && Within(caps, acc) && acc.bytesRead <= MAX_U64
    ensures Consume(caps, false, raws, acc).truncation == NoCap <==> Room(caps, raws, acc)
    decreases |raws|
  {
    if raws != [] && Fits(caps.maxLine, raws[0]) {
      RoomCons(caps, raws, acc);
      var acc1 := acc.(bytesRead := SatAdd(acc.bytesRead, |raws[0]|));
      var acc2 := Push(acc1, ItemOf(caps, raws[0]));
      if Within(caps, acc2) { UncappedIffRoom(caps, raws[1..], acc2); }
    }
  }

  lemma {:induction false} LinesKeepBytes(data: Bytes)
    ensures TotalBytes(Lines(data)) == |data|
    decreases |data|
  {
    if data != [] { LinesKeepBytes(data[LineLength(data)..]); }
  }

  /**
   A stream that ends without a read error is consumed without a cap hit exactly if every
   line fits, the total stays within the byte cap, and the items stay below the entry cap.
   */
  lemma UncappedExactly<J, E>(caps: Caps<J, E>, data: Bytes)
    ensures Consume(caps, false, Lines(data), Start()).truncation == NoCap <==>
            && AllFit(caps.maxLine, Lines(data))
            && SatAdd(0, |data|) <= caps.maxBytes
            && (Items(caps, Lines(data)) < caps.maxEntries || Items(caps, Lines(data)) == 0)
  {
    LinesKeepBytes(data);
    UncappedIffRoom(caps, Lines(data), Start());
  }

  // ---------------------------------------------------------------- which cap is hit

  /** Line `k` is read, and nothing before it has hit a cap. */
  predicate Reached<J, E>(caps: Caps<J, E>, fails: bool, raws: seq<Bytes>, acc: Outcome<J, E>, k: nat) {
    k < |raws| && !Lost(caps.maxLine, fails, raws[k..]) && Room(caps, raws[..k], acc)
  }

  /** The bytes counted once line `k` is read, as far as the limited reader takes it. */
  function BytesThrough(maxLine: nat, raws: seq<Bytes>, k: nat, before: nat): nat
    requires k < |raws|
  {
    SatAdd(SatAdd(before, TotalBytes(raws[..k])), Min(|raws[k]|, maxLine + 1))
  }

  /** The cap that line `k` hits, given that no line before it hit one. */
  function CapAt<J, E>(caps: Caps<J, E>, raws: seq<Bytes>, acc: Outcome<J, E>, k: nat): Truncation
    requires k < |raws|
  {
    if BytesThrough(caps.maxLine, raws, k, acc.bytesRead) > caps.maxBytes then MaxBytes
    else if !Fits(caps.maxLine, raws[k]) then MaxLineBytes
    else if ItemOf(caps, raws[k]).Some? && Entries(acc) + Items(caps, raws[..k]) + 1 >= caps.maxEntries then MaxEntries
    else NoCap
  }

  predicate StopsAt<J, E>(caps: Caps<J, E>, fails: bool, raws: seq<Bytes>, acc: Outcome<J, E>, k: nat, cap: Truncation) {
    Reached(caps, fails, raws, acc, k) && CapAt(caps, raws, acc, k) == cap
  }

  function AfterLine<J, E>(caps: Caps<J, E>, raw: Bytes, acc: Outcome<J, E>): Outcome<J, E> {
    Push(acc.(bytesRead := SatAdd(acc.bytesRead, |raw|)), ItemOf(caps, raw))
  }

  lemma FirstLine<J, E>(caps: Caps<J, E>, fails: bool, raws: seq<Bytes>, acc: Outcome<J, E>)
    requires raws != [] && !Lost(caps.maxLine, fails, raws) && acc.truncation == NoCap && Within(caps, acc)
    ensures Reached(caps, fails, raws, acc, 0)
    ensures var cap := CapAt(caps, raws, acc, 0);
            if cap == NoCap then
              Within(caps, AfterLine(caps, raws[0], acc))
              && Consume(caps, fails, raws, acc) == Consume(caps, fails, raws[1..], AfterLine(caps, raws[0], acc))
            else Consume(caps, fails, raws, acc).truncation == cap
  {
    assert raws[..0] == [] && raws[0..] == raws;
  }

  /** Beyond the first line, counting from the first or from the second line is the same. */
  lemma LaterLine<J, E>(caps: Caps<J, E>, fails: bool, raws: seq<Bytes>, acc: Outcome<J, E>, k: nat)
    requires 0 < k < |raws| && Within(caps, acc) && CapAt(caps, raws, acc, 0) == NoCap
    ensures var next := AfterLine(caps, raws[0], acc);
            && (Reached(caps, fails, raws, acc, k) <==> Reached(caps, fails, raws[1..], next, k - 1))
            && CapAt(caps, raws, acc, k) == CapAt(caps, raws[1..], next, k - 1)
  {
    var first := raws[..k];
    assert raws[..0] == [];
    assert first[0] == raws[0] && first[1..] == raws[1..][..k - 1] && raws[k..] == raws[1..][k - 1..];
    RoomCons(caps, first, acc);
    ItemsCons(caps, first);
  }

  /** After a line that hits a cap there is no room for any longer beginning. */
  lemma NoLineAfterCap<J, E>(caps: Caps<J, E>, fails: bool, raws: seq<Bytes>, acc: Outcome<J, E>, k: nat)
    requires 0 < k < |raws| && Within(caps, acc) && CapAt(caps, raws, acc, 0) != NoCap
    ensures !Reached(caps, fails, raws, acc, k)
  {
    var first := raws[..k];
    assert raws[..0] == [];
    assert first[0] == raws[0];
    if Room(caps, first, acc) {
      assert Fits(caps.maxLine, first[0]);
      RoomCons(caps, first, acc);
    }
  }

  /** A run ends with a cap exactly if some line of the input hits that cap and no earlier line hits any. */
  lemma {:induction false} TruncationIff<J, E>(caps: Caps<J, E>, fails: bool, raws: seq<Bytes>, acc: Outcome<J, E>, cap: Truncation)
    requires acc.truncation == NoCap && Within(caps, acc) && cap != NoCap
    ensures Consume(caps, fails, raws, acc).truncation == cap <==> exists k :: StopsAt(caps, fails, raws, acc, k, cap)
    decreases |raws|
  {
    if raws == [] {
    } else if Lost(caps.maxLine, fails, raws) {
      forall k ensures !StopsAt(caps, fails, raws, acc, k, cap) { assert raws[0..] == raws; }
    } else {
      FirstLine(caps, fails, raws, acc);
      if CapAt(caps, raws, acc, 0) != NoCap {
        forall k | 0 < k < |raws| ensures !Reached(caps, fails, raws, acc, k) { NoLineAfterCap(caps, fails, raws, acc, k); }
        assert StopsAt(caps, fails, raws, acc, 0, cap) <==> CapAt(caps, raws, acc, 0) == cap;
      } else {
        var next := AfterLine(caps, raws[0], acc);
        TruncationIff(caps, fails, raws[1..], next, cap);
        forall k | 0 < k < |raws| ensures StopsAt(caps, fails, raws, acc, k, cap) <==> StopsAt(caps, fails, raws[1..], next, k - 1, cap) {
          LaterLine(caps, fails, raws, acc, k);
        }
        if k: nat :| StopsAt(caps, fails, raws[1..], next, k, cap) { assert StopsAt(caps, fails, raws, acc, k + 1, cap); }
      }
    }
  }

  lemma {:induction false} OvershootIsTruncation<J, E>(caps: Caps<J, E>, fails: bool, raws: seq<Bytes>, acc: Outcome<J, E>)
    requires acc.truncation == NoCap && Within(caps, acc)
    ensures var r := Consume(caps, fails, raws, acc);
            && (r.bytesRead > caps.maxBytes <==> r.truncation == MaxBytes)
            && (Entries(r) > caps.maxEntries <==> caps.maxEntries == 0 && r.truncation == MaxEntries)
    decreases |raws|
  {
    if raws != [] {
      var acc1 := acc.(bytesRead := SatAdd(acc.bytesRead, Min(|raws[0]|, caps.maxLine + 1)));
      var acc2 := Push(acc1, ItemOf(caps, raws[0]));
      if Within(caps, acc2) { OvershootIsTruncation(caps, fails, raws[1..], acc2); }
    }
  }

  /** With an entry cap of zero: line `k` is the first with an item, and neither it nor a line before it hits another cap. */
  predicate FirstItemAt<J, E>(caps: Caps<J, E>, fails: bool, raws: seq<Bytes>, k: nat) {
    && k < |raws| && !Lost(caps.maxLine, fails, raws[k..])
    && AllFit(caps.maxLine, raws[..k + 1]) && SatAdd(0, TotalBytes(raws[..k + 1])) <= caps.maxBytes
    && Items(caps, raws[..k]) == 0 && ItemOf(caps, raws[k]).Some?
  }

  lemma {:induction false} TotalBytesSnoc(raws: seq<Bytes>, raw: Bytes)
    ensures TotalBytes(raws + [raw]) == TotalBytes(raws) + |raw|
  {
    if raws == [] {
      assert raws + [raw] == [raw];
    } else {
      assert (raws + [raw])[0] == raws[0] && (raws + [raw])[1..] == raws[1..] + [raw];
      TotalBytesSnoc(raws[1..], raw);
    }
  }

  lemma FirstItemStops<J, E>(caps: Caps<J, E>, fails: bool, raws: seq<Bytes>, k: nat)
    requires caps.maxEntries == 0
    ensures StopsAt(caps, fails, raws, Start(), k, MaxEntries) <==> FirstItemAt(caps, fails, raws, k)
  {
    if k < |raws| {
      assert raws[..k + 1] == raws[..k] + [raws[k]];
      TotalBytesSnoc(raws[..k], raws[k]);
    }
  }

  /** The line that trips the byte cap: everything before it is within all caps. */
  predicate TripsBytesAt<J, E>(caps: Caps<J, E>, fails: bool, raws: seq<Bytes>, k: nat) {
    && k < |raws| && !Lost(caps.maxLine, fails, raws[k..])
    && Room(caps, raws[..k], Start())
    && SatAdd(TotalBytes(raws[..k]), Min(|raws[k]|, caps.maxLine + 1)) > caps.maxBytes
  }

  lemma TripsBytesStops<J, E>(caps: Caps<J, E>, fails: bool, raws: seq<Bytes>, k: nat)
    ensures StopsAt(caps, fails, raws, Start(), k, MaxBytes) <==> TripsBytesAt(caps, fails, raws, k)
  {
  }

  /**
   When the caps are overshot, told from the output alone. The byte cap: some line that is read
   takes the bytes beyond it while everything before that line stayed within all caps. The entry
   cap: it is zero and some line with an item is read before any other cap is hit.
   */
  lemma OvershootIff<J, E>(caps: Caps<J, E>, fails: bool, data: Bytes)
    ensures var r, raws := Consume(caps, fails, Lines(data), Start()), Lines(data);
            && (r.bytesRead > caps.maxBytes <==> exists k :: TripsBytesAt(caps, fails, raws, k))
            && (Entries(r) > caps.maxEntries <==> caps.maxEntries == 0 && exists k :: FirstItemAt(caps, fails, raws, k))
  {
    var raws := Lines(data);
    OvershootIsTruncation(caps, fails, raws, Start());
    TruncationIff(caps, fails, raws, Start(), MaxBytes);
    TruncationIff(caps, fails, raws, Start(), MaxEntries);
    forall k ensures StopsAt(caps, fails, raws, Start(), k, MaxBytes) <==> TripsBytesAt(caps, fails, raws, k) {
      TripsBytesStops(caps, fails, raws, k);
    }
    if caps.maxEntries == 0 {
      forall k ensures StopsAt(caps, fails, raws, Start(), k, MaxEntries) <==> FirstItemAt(caps, fails, raws, k) {
        FirstItemStops(caps, fails, raws, k);
      }
    }
  }

  lemma LinesOfOne(b: Byte)
    ensures Lines([b]) == [[b]]
  {
    var data: Bytes := [b];
    assert data[..1] == data && data[1..] == [];
  }

  /** With a byte cap of zero, one byte is read all the same. */
  lemma OneByteOvershoots<J, E>(caps: Caps<J, E>, b: Byte)
    requires caps.maxBytes == 0
    ensures Consume(caps, false, Lines([b]), Start()) == Outcome([], [], 1, MaxBytes)
  {
    LinesOfOne(b);
  }

  /** With an entry cap of zero, one entry is kept all the same. */
  lemma OneEntryOvershoots<J, E>(caps: Caps<J, E>, b: Byte)
    requires caps.maxEntries == 0 && caps.maxBytes > 0 && caps.maxLine > 0 && b != NEWLINE && caps.parse([b]).Some?
    ensures var r := Consume(caps, false, Lines([b]), Start()); |r.jobs| + |r.errors| == 1 && r.truncation == MaxEntries
  {
    LinesOfOne(b);
    assert Text([b]) == [b];
  }
}
