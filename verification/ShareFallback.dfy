/** The fallback of share recording: batches that cannot be committed go to a recovery file, which the
    import reads back. */
module ShareFallback {
  import opened ShareRecovery
  import opened Wrappers

  // --- The recovery file ---

  /** One serialised share: a JSON object on one line. */
  predicate IsRecord(s: string) {
    |s| >= 2 && s[0] == '{' && s[|s| - 1] == '}' && NoBreaks(s)
  }

  /** What the serialiser and the parser are to each other. */
  ghost predicate RoundTrips<S(!new)>(ser: S -> string, parse: string -> Option<S>) {
    forall s :: IsRecord(ser(s)) && parse(ser(s)) == Some(s)
  }

  /** The platform's line terminator. */
  predicate IsNewLine(nl: string) { nl == "\n" || nl == "\r\n" }

  /** The instructions at the top of the file: three comment lines. */
  datatype Instructions = Instructions(first: string, second: string, third: string)

  predicate IsComment(line: string) { line != "" && line[0] == '#' && NoBreaks(line) }

  predicate AreComments(h: Instructions) { IsComment(h.first) && IsComment(h.second) && IsComment(h.third) }

  /** The last line is followed by an empty one. */
  function Header(h: Instructions, nl: string): string {
    h.first + nl + (h.second + nl + (h.third + "\n" + nl))
  }

  function Written<S>(ser: S -> string, nl: string, shares: seq<S>): string {
    if shares == [] then "" else ser(shares[0]) + nl + Written(ser, nl, shares[1..])
  }

  /** A file is empty or ends with a line feed. */
  predicate WholeLines(text: string) { text == "" || text[|text| - 1] == '\n' }

  lemma {:induction false} FirstBreakIs(line: string, rest: string)
    requires NoBreaks(line) && rest != "" && IsBreak(rest[0])
    ensures FirstBreak(line + rest) == |line|
  {
    if line != "" {
      assert (line + rest)[1..] == line[1..] + rest;
      FirstBreakIs(line[1..], rest);
    } else {
      assert line + rest == rest;
    }
  }

  lemma ReadTerminated(line: string, nl: string, rest: string)
    requires NoBreaks(line) && IsNewLine(nl)
    ensures line + nl + rest != "" && ReadLine(line + nl + rest) == (line, rest)
  {
    var text := line + nl + rest;
    assert text == line + (nl + rest);
    FirstBreakIs(line, nl + rest);
    assert text[..|line|] == line;
    assert text[|line| + |nl|..] == rest;
  }

  /** A terminated line contributes what it says, and the rest of the text the rest. */
  lemma TerminatedLine<S>(parse: string -> Option<S>, line: string, nl: string, rest: string)
    requires NoBreaks(line) && IsNewLine(nl)
    ensures Parsed(parse, line + nl + rest) == ParsedLine(parse, line) + Parsed(parse, rest)
    ensures Malformed(parse, line + nl + rest) == MalformedLine(parse, line) + Malformed(parse, rest)
  {
    hide ReadLine, Content, FirstBreak;
    ReadTerminated(line, nl, rest);
  }

  lemma TrimOfSolid(s: string)
    requires s != "" && !IsWhite(s[0]) && !IsWhite(s[|s| - 1])
    ensures Trim(s) == s
  {
  }

  lemma RecordIsParsed<S(!new)>(ser: S -> string, parse: string -> Option<S>, s: S)
    requires RoundTrips(ser, parse)
    ensures NoBreaks(ser(s)) && ParsedLine(parse, ser(s)) == [s] && MalformedLine(parse, ser(s)) == 0
  {
    assert IsRecord(ser(s));
    TrimOfSolid(ser(s));
  }

  /** Written shares are read back, all of them and in order. */
  lemma {:induction false} WrittenIsParsed<S(!new)>(ser: S -> string, parse: string -> Option<S>, nl: string,
                                                    shares: seq<S>)
    requires RoundTrips(ser, parse) && IsNewLine(nl)
    ensures Parsed(parse, Written(ser, nl, shares)) == shares
    ensures Malformed(parse, Written(ser, nl, shares)) == 0
    ensures WholeLines(Written(ser, nl, shares))
  {
    hide Parsed, Malformed, ParsedLine, MalformedLine, RoundTrips;
    if shares == [] {
      NothingParsed(parse);
    } else {
      RecordIsParsed(ser, parse, shares[0]);
      WrittenIsParsed(ser, parse, nl, shares[1..]);
      TerminatedLine(parse, ser(shares[0]), nl, Written(ser, nl, shares[1..]));
      assert [shares[0]] + shares[1..] == shares;
    }
  }

  lemma NothingParsed<S>(parse: string -> Option<S>)
    ensures Parsed(parse, "") == [] && Malformed(parse, "") == 0
  {
  }

  lemma CommentSaysNothing(line: string)
    requires line != "" && line[0] == '#'
    ensures Content(line) == None
  {
    assert !IsWhite(line[0]);
    assert TrimStart(line) == line;
    KeepsFirst(line);
  }

  lemma {:induction false} KeepsFirst(s: string)
    requires s != "" && !IsWhite(s[0])
    ensures TrimEnd(s) != "" && TrimEnd(s)[0] == s[0]
  {
    if IsWhite(s[|s| - 1]) {
      KeepsFirst(s[..|s| - 1]);
    }
  }

  lemma EmptyLineSaysNothing()
    ensures NoBreaks("") && Content("") == None
  {
  }

  /** The header holds no records. */
  lemma HeaderIsSilent<S>(parse: string -> Option<S>, h: Instructions, nl: string, rest: string)
    requires AreComments(h) && IsNewLine(nl)
    ensures Parsed(parse, Header(h, nl) + rest) == Parsed(parse, rest)
    ensures Malformed(parse, Header(h, nl) + rest) == Malformed(parse, rest)
  {
    hide Parsed, Malformed, Content, NoBreaks;
    CommentSaysNothing(h.first);
    CommentSaysNothing(h.second);
    CommentSaysNothing(h.third);
    EmptyLineSaysNothing();
    var t3 := h.third + "\n" + ("" + nl + rest);
    var t2 := h.second + nl + t3;
    assert Header(h, nl) + rest == h.first + nl + t2;
    TerminatedLine(parse, h.first, nl, t2);
    TerminatedLine(parse, h.second, nl, t3);
    TerminatedLine(parse, h.third, "\n", "" + nl + rest);
    TerminatedLine(parse, "", nl, rest);
  }

  /** Text after whole lines is read as if it stood alone. */
  lemma {:induction false} WholeLinesFirst<S>(parse: string -> Option<S>, f: string, g: string)
    requires WholeLines(f)
    ensures Parsed(parse, f + g) == Parsed(parse, f) + Parsed(parse, g)
    ensures Malformed(parse, f + g) == Malformed(parse, f) + Malformed(parse, g)
    decreases |f|
  {
    hide Parsed, Malformed, ParsedLine, MalformedLine, ReadLine;
    if f == "" {
      NothingParsed(parse);
      assert f + g == g;
    } else {
      ReadWithin(f, g);
      FirstRecord(parse, f);
      FirstRecord(parse, f + g);
      WholeLinesFirst(parse, ReadLine(f).1, g);
    }
  }

  lemma FirstRecord<S>(parse: string -> Option<S>, text: string)
    requires text != ""
    ensures Parsed(parse, text) == ParsedLine(parse, ReadLine(text).0) + Parsed(parse, ReadLine(text).1)
    ensures Malformed(parse, text) == MalformedLine(parse, ReadLine(text).0) + Malformed(parse, ReadLine(text).1)
  {
  }

  lemma {:induction false} BreakWithin(f: string, g: string)
    requires f != "" && IsBreak(f[|f| - 1])
    ensures FirstBreak(f) < |f| && FirstBreak(f + g) == FirstBreak(f)
  {
    if !IsBreak(f[0]) {
      BreakWithin(f[1..], g);
      assert (f + g)[1..] == f[1..] + g;
    }
  }

  lemma ReadWithin(f: string, g: string)
    requires f != "" && f[|f| - 1] == '\n'
    ensures WholeLines(ReadLine(f).1)
    ensures ReadLine(f + g) == (ReadLine(f).0, ReadLine(f).1 + g)
  {
    hide FirstBreak;
    BreakWithin(f, g);
    var i := FirstBreak(f);
    assert (f + g)[..i] == f[..i];
    assert (f + g)[i + 1..] == f[i + 1..] + g;
    if i + 2 <= |f| {
      assert (f + g)[i + 2..] == f[i + 2..] + g;
    }
  }

  /** The file after a write that goes through. */
  function AfterAppend<S>(ser: S -> string, h: Instructions, nl: string, text: string, shares: seq<S>): string {
    text + (if text == "" then Header(h, nl) else "") + Written(ser, nl, shares)
  }

  class RecoveryFile<S(!new)> {
    var text: string
    const header: Instructions
    const newLine: string
    const ser: S -> string

    ghost predicate Valid() {
      AreComments(header) && IsNewLine(newLine)
    }

    constructor (header: Instructions, newLine: string, ser: S -> string)
      requires AreComments(header) && IsNewLine(newLine)
      ensures Valid() && text == "" && this.header == header && this.newLine == newLine && this.ser == ser
    {
      text, this.header, this.newLine, this.ser := "", header, newLine, ser;
    }

    /** The fallback: a new or empty file gets the header first. Only `room` characters can be written; if
        that is not enough, the exception is caught, and `ok` is only logged. */
    method Append(shares: seq<S>, room: nat) returns (ok: bool)
      requires Valid()
      modifies this
      ensures var whole := AfterAppend(ser, header, newLine, old(text), shares);
        && ok == (|whole| <= |old(text)| + room)
        && text == if ok then whole else whole[..|old(text)| + room]
    {
      var most := |text| + room;
      var text := this.text;
      if |text| == 0 {
        text := text + Header(header, newLine);
      }
      ghost var start := text;
      var i := 0;
      assert shares[0..] == shares;
      while i < |shares|
        invariant i <= |shares|
        invariant text + Written(ser, newLine, shares[i..]) == start + Written(ser, newLine, shares)
      {
        text := text + ser(shares[i]) + newLine;
        assert shares[i..][0] == shares[i] && shares[i..][1..] == shares[i + 1..];
        i := i + 1;
      }
      assert shares[i..] == [] && text + "" == text;
      assert start + Written(ser, newLine, shares) == text;
      ok := |text| <= most;
      this.text := if ok then text else text[..most];
    }
  }

  lemma HeaderIsWhole(h: Instructions, nl: string)
    requires IsNewLine(nl)
    ensures Header(h, nl) != "" && WholeLines(Header(h, nl))
  {
  }

  /** What the file contains after an append: the records it had, then the new shares. */
  lemma AppendedIsParsed<S(!new)>(ser: S -> string, parse: string -> Option<S>, h: Instructions, nl: string,
                                  text: string, shares: seq<S>, text': string)
    requires RoundTrips(ser, parse) && AreComments(h) && IsNewLine(nl) && WholeLines(text)
    requires text' == AfterAppend(ser, h, nl, text, shares)
    ensures Parsed(parse, text') == Parsed(parse, text) + shares
    ensures Malformed(parse, text') == Malformed(parse, text)
    ensures WholeLines(text')
  {
    hide Parsed, Malformed, RoundTrips, AreComments, Written, Header, IsNewLine;
    var w := Written(ser, nl, shares);
    WrittenIsParsed(ser, parse, nl, shares);
    if text == "" {
      assert text' == Header(h, nl) + w;
      HeaderIsSilent(parse, h, nl, w);
      HeaderIsWhole(h, nl);
      NothingParsed(parse);
      assert [] + shares == shares;
    } else {
      assert text' == text + w;
      WholeLinesFirst(parse, text, w);
    }
  }

  /** The lines of a text. */
  function LinesOf(text: string): seq<string>
    decreases |text|
  {
    if text == "" then []
    else
      var (line, rest) := ReadLine(text);
      [line] + LinesOf(rest)
  }

  function Serialised<S>(ser: S -> string, shares: seq<S>): seq<string> {
    seq(|shares|, i requires 0 <= i < |shares| => ser(shares[i]))
  }

  lemma OneMoreLine(line: string, nl: string, rest: string)
    requires NoBreaks(line) && IsNewLine(nl)
    ensures LinesOf(line + nl + rest) == [line] + LinesOf(rest)
  {
    hide ReadLine;
    ReadTerminated(line, nl, rest);
  }

  lemma {:induction false} WrittenLines<S(!new)>(ser: S -> string, parse: string -> Option<S>, nl: string,
                                                 shares: seq<S>)
    requires RoundTrips(ser, parse) && IsNewLine(nl)
    ensures LinesOf(Written(ser, nl, shares)) == Serialised(ser, shares)
  {
    hide RoundTrips, IsNewLine, ReadLine, LinesOf;
    NoLines();
    if shares != [] {
      IsOneLine(ser, parse, shares[0]);
      WrittenLines(ser, parse, nl, shares[1..]);
      OneMoreLine(ser(shares[0]), nl, Written(ser, nl, shares[1..]));
      assert Serialised(ser, shares) == [ser(shares[0])] + Serialised(ser, shares[1..]);
    }
  }

  lemma NoLines()
    ensures LinesOf("") == []
  {
  }

  lemma IsOneLine<S(!new)>(ser: S -> string, parse: string -> Option<S>, share: S)
    requires RoundTrips(ser, parse)
    ensures NoBreaks(ser(share))
  {
    assert IsRecord(ser(share));
  }

  lemma {:induction false} LinesAppend(f: string, g: string)
    requires WholeLines(f)
    ensures LinesOf(f + g) == LinesOf(f) + LinesOf(g)
    decreases |f|
  {
    hide ReadLine;
    if f == "" {
      assert f + g == g;
    } else {
      ReadWithin(f, g);
      LinesAppend(ReadLine(f).1, g);
    }
  }

  /** The lines of the file after an append: those it had, on a new file the three comments and an empty
      line, and then one line for every share. */
  lemma AppendedLines<S(!new)>(ser: S -> string, parse: string -> Option<S>, h: Instructions, nl: string,
                               text: string, shares: seq<S>)
    requires RoundTrips(ser, parse) && AreComments(h) && IsNewLine(nl) && WholeLines(text)
    ensures LinesOf(AfterAppend(ser, h, nl, text, shares))
      == (if text == "" then [h.first, h.second, h.third, ""] else LinesOf(text)) + Serialised(ser, shares)
  {
    hide RoundTrips, LinesOf, Written, Serialised, ReadLine;
    var w := Written(ser, nl, shares);
    WrittenLines(ser, parse, nl, shares);
    if text == "" {
      var t3 := h.third + "\n" + ("" + nl + w);
      var t2 := h.second + nl + t3;
      assert AfterAppend(ser, h, nl, text, shares) == h.first + nl + t2;
      OneMoreLine(h.first, nl, t2);
      OneMoreLine(h.second, nl, t3);
      OneMoreLine(h.third, "\n", "" + nl + w);
      OneMoreLine("", nl, w);
    } else {
      assert AfterAppend(ser, h, nl, text, shares) == text + w;
      LinesAppend(text, w);
    }
  }

  function FileAfter<S>(ser: S -> string, h: Instructions, nl: string, batches: seq<seq<S>>): string {
    if batches == [] then ""
    else
      AfterAppend(ser, h, nl, FileAfter(ser, h, nl, batches[..|batches| - 1]), batches[|batches| - 1])
  }

  function Concatenated<S>(batches: seq<seq<S>>): seq<S> {
    if batches == [] then [] else Concatenated(batches[..|batches| - 1]) + batches[|batches| - 1]
  }

  /** The file written by any number of fallbacks parses to their batches, in order. */
  lemma {:induction false} FileIsParsed<S(!new)>(ser: S -> string, parse: string -> Option<S>, h: Instructions,
                                                 nl: string, batches: seq<seq<S>>)
    requires RoundTrips(ser, parse) && AreComments(h) && IsNewLine(nl)
    ensures Parsed(parse, FileAfter(ser, h, nl, batches)) == Concatenated(batches)
    ensures Malformed(parse, FileAfter(ser, h, nl, batches)) == 0
    ensures WholeLines(FileAfter(ser, h, nl, batches))
  {
    hide Parsed, Malformed, RoundTrips, AreComments, Written;
    if batches == [] {
      NothingParsed(parse);
    } else {
      var before := batches[..|batches| - 1];
      FileIsParsed(ser, parse, h, nl, before);
      AppendedIsParsed(ser, parse, h, nl, FileAfter(ser, h, nl, before), batches[|batches| - 1],
        FileAfter(ser, h, nl, batches));
    }
  }

  /** Recovering such a file stores every share, once and in order, exactly when the last commit succeeds. */
  lemma FallbackRoundTrip<S(!new)>(ser: S -> string, parse: string -> Option<S>, h: Instructions, nl: string,
                                   batches: seq<seq<S>>, commits: nat -> bool)
    requires RoundTrips(ser, parse) && AreComments(h) && IsNewLine(nl)
    ensures var p := Recovered(parse, commits, FileAfter(ser, h, nl, batches));
      && p.stored + p.buffer == Concatenated(batches)
      && (p.stored == Concatenated(batches) <==> p.attempts == 0 || commits(p.attempts - 1))
      && p.failCount == FailedCommits(commits, p.attempts)
  {
    hide *;
    FileIsParsed(ser, parse, h, nl, batches);
    RecoveryLosesNothing(parse, commits, FileAfter(ser, h, nl, batches));
  }

  /** Importing a file of more than a batch whose first commit fails: there is one more commit, and either
      it stores all shares or none is ever stored. */
  lemma OneFailureHoldsUpAll<S(!new)>(ser: S -> string, parse: string -> Option<S>, h: Instructions, nl: string,
                                      batches: seq<seq<S>>, commits: nat -> bool)
    requires RoundTrips(ser, parse) && AreComments(h) && IsNewLine(nl)
    requires |Concatenated(batches)| > 100 && !commits(0)
    ensures var p := Recovered(parse, commits, FileAfter(ser, h, nl, batches));
      p.attempts == 2 && p.stored == if commits(1) then Concatenated(batches) else []
  {
    hide RoundTrips, AreComments, IsNewLine, FileAfter, Concatenated, Recovered;
    FileIsParsed(ser, parse, h, nl, batches);
    StoredExactly(parse, commits, FileAfter(ser, h, nl, batches));
  }

  // --- Recording ---

  /** How a commit goes: failures of the database or the network are handled, others are not. */
  datatype Attempt = Commits | FailsHandled | FailsOtherwise

  const RETRY_COUNT: nat := 3

  /** What becomes of a batch. A fallback write that fails is logged and swallowed, wherever it stopped. */
  datatype Fate = InTables | InFile | LostSilently | LostByException

  /** The first of the attempts from `k` on that is not retried; handled failures if there is none. */
  function Outcome(attempts: nat -> Attempt, k: nat): Attempt
    decreases RETRY_COUNT + 1 - k
  {
    if k > RETRY_COUNT then FailsHandled
    else if attempts(k) == FailsHandled then Outcome(attempts, k + 1)
    else attempts(k)
  }

  function FateOf(circuitBroken: bool, attempts: nat -> Attempt, writes: bool): Fate {
    match if circuitBroken then FailsHandled else Outcome(attempts, 0)
    case Commits => InTables
    case FailsOtherwise => LostByException
    case FailsHandled => if writes then InFile else LostSilently
  }

  /** Records a batch under the fault policy: some attempts to commit it, unless the circuit is broken,
      and then the recovery file, which has room for some more characters. */
  method PersistShares<S(!new)>(db: ShareStore<S>, file: RecoveryFile<S>, shares: seq<S>, circuitBroken: bool,
                                attempts: nat -> Attempt, room: nat)
    returns (fate: Fate)
    requires file.Valid()
    modifies db, file
    ensures var whole := AfterAppend(file.ser, file.header, file.newLine, old(file.text), shares);
      && fate == FateOf(circuitBroken, attempts, |whole| <= |old(file.text)| + room)
      && file.text == match fate {
           case InFile => whole
           case LostSilently => whole[..|old(file.text)| + room]
           case _ => old(file.text)
         }
    ensures db.shares == old(db.shares) + if fate == InTables then shares else []
    ensures db.blocks == old(db.blocks) + if fate == InTables then Candidates(db.isBlockCandidate, shares) else []
  {
    hide AreComments, Written, Candidates;
    assert [] == Candidates(db.isBlockCandidate, []) by {
      NoCandidates(db.isBlockCandidate);
    }
    if !circuitBroken {
      var k := 0;
      while k <= RETRY_COUNT
        invariant k <= RETRY_COUNT + 1
        invariant db.shares == old(db.shares) && db.blocks == old(db.blocks) && file.text == old(file.text)
        invariant Outcome(attempts, 0) == Outcome(attempts, k)
      {
        var ok := db.PersistSharesCore(shares, attempts(k) == Commits);
        if ok {
          return InTables;
        }
        if attempts(k) == FailsOtherwise {
          return LostByException;
        }
        k := k + 1;
      }
    }
    var ok := file.Append(shares, room);
    return if ok then InFile else LostSilently;
  }

  /** Attempt `k` is the first that does not fail with a handled failure. */
  predicate DecidesAt(attempts: nat -> Attempt, k: nat) {
    k <= 3 && attempts(k) != FailsHandled && forall j: nat :: j < k ==> attempts(j) == FailsHandled
  }

  lemma {:induction false} OutcomeIs(attempts: nat -> Attempt, k: nat)
    requires forall j: nat :: j < k ==> attempts(j) == FailsHandled
    ensures Outcome(attempts, k) == FailsHandled <==> !exists i: nat :: DecidesAt(attempts, i)
    ensures forall i: nat :: DecidesAt(attempts, i) ==> Outcome(attempts, k) == attempts(i)
    decreases 4 - k
  {
    if k <= 3 {
      if attempts(k) == FailsHandled {
        OutcomeIs(attempts, k + 1);
      } else {
        assert DecidesAt(attempts, k);
      }
    }
  }

  /** A batch is lost exactly when an attempt fails in a way that no policy handles, after handled
      failures only, or when it goes to the recovery file and the write fails. It goes to the file when
      the circuit is broken or all attempts fail with handled failures. */
  lemma LostExactlyWhen(circuitBroken: bool, attempts: nat -> Attempt, writes: bool)
    ensures FateOf(circuitBroken, attempts, writes) == LostByException <==>
      !circuitBroken && exists k: nat :: DecidesAt(attempts, k) && attempts(k) == FailsOtherwise
    ensures FateOf(circuitBroken, attempts, writes) == LostSilently <==>
      !writes && (circuitBroken || forall k: nat :: k <= 3 ==> attempts(k) == FailsHandled)
    ensures FateOf(circuitBroken, attempts, writes) == InTables <==>
      !circuitBroken && exists k: nat :: DecidesAt(attempts, k) && attempts(k) == Commits
  {
    OutcomeIs(attempts, 0);
    if k: nat :| k <= 3 && attempts(k) != FailsHandled {
      var first := FirstDecision(attempts, k);
      assert DecidesAt(attempts, first);
    } else {
      assert forall k: nat :: !DecidesAt(attempts, k);
    }
  }

  lemma {:induction false} FirstDecision(attempts: nat -> Attempt, k: nat) returns (first: nat)
    requires k <= 3 && attempts(k) != FailsHandled
    ensures DecidesAt(attempts, first)
  {
    if j: nat :| j < k && attempts(j) != FailsHandled {
      first := FirstDecision(attempts, j);
    } else {
      first := k;
    }
  }

  /** The database is unreachable and the disk is full: the batch is gone, and the caller is not told. */
  method LosesABatch<S(!new)>(db: ShareStore<S>, file: RecoveryFile<S>, shares: seq<S>) returns (fate: Fate)
    requires file.Valid() && shares != []
    modifies db, file
    ensures fate == LostSilently && db.shares == old(db.shares) && file.text == old(file.text)
  {
    hide AreComments, Candidates;
    var attempts := (k: nat) => FailsHandled;
    LostExactlyWhen(false, attempts, false);
    fate := PersistShares(db, file, shares, false, attempts, 0);
  }
}
