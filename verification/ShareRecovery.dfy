/** Shares that cannot be committed are appended to a recovery file, which is imported later in
    batches whose commits may fail. */
module ShareRecovery {
  import opened Wrappers

  const BATCH_SIZE: nat := 100

  // --- Lines of a text ---

  predicate IsBreak(c: char) { c == '\n' || c == '\r' }

  predicate IsWhite(c: char) { c == ' ' || c == '\t' || IsBreak(c) }

  predicate NoBreaks(s: string) { forall i :: 0 <= i < |s| ==> !IsBreak(s[i]) }

  /** Where the first line ends. */
  function FirstBreak(text: string): (i: nat)
    ensures i <= |text| && NoBreaks(text[..i])
    ensures i < |text| ==> IsBreak(text[i])
  {
    if text == "" || IsBreak(text[0]) then 0 else 1 + FirstBreak(text[1..])
  }

  /** The first line, and what follows its terminator: a line feed, a carriage return or both. */
  function ReadLine(text: string): (r: (string, string))
    requires text != ""
    ensures |r.1| < |text|
  {
    var i := FirstBreak(text);
    if i == |text| then (text, "")
    else if text[i] == '\r' && i + 1 < |text| && text[i + 1] == '\n' then (text[..i], text[i + 2..])
    else (text[..i], text[i + 1..])
  }

  function TrimStart(s: string): string {
    if s != "" && IsWhite(s[0]) then TrimStart(s[1..]) else s
  }

  function TrimEnd(s: string): string {
    if s != "" && IsWhite(s[|s| - 1]) then TrimEnd(s[..|s| - 1]) else s
  }

  function Trim(s: string): string { TrimEnd(TrimStart(s)) }

  /** What a line has to say: nothing if it is blank or a comment. */
  function Content(line: string): Option<string> {
    var s := Trim(line);
    if s == "" || s[0] == '#' then None else Some(s)
  }

  /** Reading a line takes off the line and its terminator, and leaves the rest: a line holds no break, only
      the last one can be without a terminator, and a carriage return and a line feed are one terminator. */
  lemma ReadLineIs(text: string) returns (end: string)
    requires text != ""
    ensures var (line, rest) := ReadLine(text);
      && text == line + end + rest && (forall i :: 0 <= i < |line| ==> line[i] != '\n' && line[i] != '\r')
      && (end == "\n" || end == "\r" || end == "\r\n" || (end == "" && rest == ""))
      && (end == "\r" && rest != "" ==> rest[0] != '\n')
  {
    var i, rest := FirstBreak(text), ReadLine(text).1;
    end := text[i..|text| - |rest|];
    if i < |text| {
      assert text == text[..i] + text[i..|text| - |rest|] + text[|text| - |rest|..];
    }
  }

  predicate AllWhite(s: string) { forall i :: 0 <= i < |s| ==> s[i] in " \t\n\r" }

  lemma WhiteIs(c: char)
    ensures IsWhite(c) <==> c in " \t\n\r"
  {
  }

  lemma WhiteJoined(a: string, b: string)
    requires AllWhite(a) && AllWhite(b)
    ensures AllWhite(a + b)
  {
  }

  lemma WhiteOne(c: char)
    requires c in " \t\n\r"
    ensures AllWhite([c]) && AllWhite("")
  {
  }

  lemma {:induction false} TrimStartIs(s: string) returns (front: string)
    ensures s == front + TrimStart(s) && AllWhite(front)
    ensures TrimStart(s) != "" ==> TrimStart(s)[0] !in " \t\n\r"
  {
    hide IsWhite, AllWhite;
    WhiteOne(' ');
    front := "";
    if s != "" {
      WhiteIs(s[0]);
      if IsWhite(s[0]) {
        var f := TrimStartIs(s[1..]);
        WhiteOne(s[0]);
        WhiteJoined([s[0]], f);
        front := [s[0]] + f;
        assert s == [s[0]] + s[1..];
      }
    }
  }

  lemma {:induction false} TrimEndIs(s: string) returns (back: string)
    ensures s == TrimEnd(s) + back && AllWhite(back)
    ensures TrimEnd(s) != "" ==> TrimEnd(s)[|TrimEnd(s)| - 1] !in " \t\n\r"
  {
    hide IsWhite, AllWhite;
    WhiteOne(' ');
    back := "";
    if s != "" {
      var n := |s| - 1;
      WhiteIs(s[n]);
      if IsWhite(s[n]) {
        var b := TrimEndIs(s[..n]);
        WhiteOne(s[n]);
        WhiteJoined(b, [s[n]]);
        back := b + [s[n]];
        assert s == s[..n] + [s[n]];
      }
    }
  }

  /** A line is white space around its content. It has no content if it is white space only, or if what is
      not begins with a number sign. */
  lemma ContentIs(line: string) returns (front: string, core: string, back: string)
    ensures line == front + core + back && AllWhite(front) && AllWhite(back)
    ensures core != "" ==> core[0] !in " \t\n\r" && core[|core| - 1] !in " \t\n\r"
    ensures Content(line) == if core == "" || core[0] == '#' then None else Some(core)
  {
    front := TrimStartIs(line);
    core := Trim(line);
    back := TrimEndIs(TrimStart(line));
    assert core == TrimEnd(TrimStart(line));
    assert TrimStart(line) == core + back;
    if core != "" {
      assert core[0] == TrimStart(line)[0];
    }
  }

  // --- The import, on values ---

  /** The shares of a text that parse, in order, and how many records do not. */
  function Parsed<S>(parse: string -> Option<S>, text: string): seq<S>
    decreases |text|
  {
    if text == "" then []
    else
      var (line, rest) := ReadLine(text);
      ParsedLine(parse, line) + Parsed(parse, rest)
  }

  function ParsedLine<S>(parse: string -> Option<S>, line: string): seq<S> {
    match Content(line)
    case None => []
    case Some(s) => if parse(s).Some? then [parse(s).value] else []
  }

  function Malformed<S>(parse: string -> Option<S>, text: string): nat
    decreases |text|
  {
    if text == "" then 0
    else
      var (line, rest) := ReadLine(text);
      MalformedLine(parse, line) + Malformed(parse, rest)
  }

  function MalformedLine<S>(parse: string -> Option<S>, line: string): nat {
    if Content(line).Some? && parse(Content(line).value).None? then 1 else 0
  }

  /** How many of the first `n` commits fail. */
  function FailedCommits(commits: nat -> bool, n: nat): nat {
    if n == 0 then 0 else FailedCommits(commits, n - 1) + if commits(n - 1) then 0 else 1
  }

  /** How far the import got; `attempts` counts the commits tried. */
  datatype Progress<S> = Progress(
    stored: seq<S>,
    buffer: seq<S>,
    successCount: nat,
    failCount: nat,
    attempts: nat)

  /** Tries to commit the buffer: on failure it is kept. */
  function Commit<S>(commits: nat -> bool, p: Progress<S>): Progress<S> {
    if commits(p.attempts) then
      Progress(p.stored + p.buffer, [], p.successCount + |p.buffer|, p.failCount, p.attempts + 1)
    else p.(failCount := p.failCount + 1, attempts := p.attempts + 1)
  }

  /** One line of the file. The buffer is committed when it holds exactly a batch, so after a failed
      commit it grows until the end of the file, unless an unparsable record follows at once. */
  function AfterLine<S>(parse: string -> Option<S>, commits: nat -> bool, p: Progress<S>, line: string): Progress<S> {
    match Content(line)
    case None => p
    case Some(s) =>
      var q := match parse(s) {
                 case Some(share) => p.(buffer := p.buffer + [share])
                 case None => p.(failCount := p.failCount + 1)
               };
      if |q.buffer| == BATCH_SIZE then Commit(commits, q) else q
  }

  function AfterText<S>(parse: string -> Option<S>, commits: nat -> bool, p: Progress<S>, text: string): Progress<S>
    decreases |text|
  {
    if text == "" then p
    else
      var (line, rest) := ReadLine(text);
      AfterText(parse, commits, AfterLine(parse, commits, p, line), rest)
  }

  /** The import of a whole file. */
  function Recovered<S>(parse: string -> Option<S>, commits: nat -> bool, text: string): Progress<S> {
    var p := AfterText(parse, commits, Progress([], [], 0, 0, 0), text);
    if |p.buffer| > 0 then Commit(commits, p) else p
  }

  // --- What the import keeps ---

  /** Nothing is lost while importing, and the counters are right. A buffer that a failed commit left
      behind is not empty. */
  ghost predicate Accounted<S>(commits: nat -> bool, p: Progress<S>, parsed: seq<S>, malformed: nat) {
    && p.stored + p.buffer == parsed
    && p.successCount == |p.stored|
    && p.failCount == malformed + FailedCommits(commits, p.attempts)
    && (p.attempts > 0 && !commits(p.attempts - 1) ==> p.buffer != [])
  }

  lemma CommitKeeps<S>(commits: nat -> bool, p: Progress<S>, parsed: seq<S>, malformed: nat)
    requires Accounted(commits, p, parsed, malformed) && p.buffer != []
    ensures Accounted(commits, Commit(commits, p), parsed, malformed)
    ensures Commit(commits, p).attempts == p.attempts + 1
    ensures commits(p.attempts) <==> Commit(commits, p).buffer == []
  {
  }

  lemma LineKeeps<S>(parse: string -> Option<S>, commits: nat -> bool, p: Progress<S>, line: string,
                     parsed: seq<S>, malformed: nat)
    requires Accounted(commits, p, parsed, malformed)
    ensures Accounted(commits, AfterLine(parse, commits, p, line), parsed + ParsedLine(parse, line),
              malformed + MalformedLine(parse, line))
  {
    hide Content;
    match Content(line) {
      case None =>
      case Some(s) =>
        var q := match parse(s) {
                   case Some(share) => p.(buffer := p.buffer + [share])
                   case None => p.(failCount := p.failCount + 1)
                 };
        assert p.stored + (p.buffer + ParsedLine(parse, line)) == parsed + ParsedLine(parse, line);
        assert q.buffer == p.buffer + ParsedLine(parse, line);
        if |q.buffer| == BATCH_SIZE {
          CommitKeeps(commits, q, parsed + ParsedLine(parse, line), malformed + if parse(s).None? then 1 else 0);
        }
    }
  }

  lemma FirstLine<S>(parse: string -> Option<S>, commits: nat -> bool, p: Progress<S>, text: string)
    requires text != ""
    ensures AfterText(parse, commits, p, text)
      == AfterText(parse, commits, AfterLine(parse, commits, p, ReadLine(text).0), ReadLine(text).1)
    ensures Parsed(parse, text) == ParsedLine(parse, ReadLine(text).0) + Parsed(parse, ReadLine(text).1)
    ensures Malformed(parse, text) == MalformedLine(parse, ReadLine(text).0) + Malformed(parse, ReadLine(text).1)
  {
  }

  lemma NoText<S>(parse: string -> Option<S>, commits: nat -> bool, p: Progress<S>)
    ensures AfterText(parse, commits, p, "") == p && Parsed(parse, "") == [] && Malformed(parse, "") == 0
  {
  }

  lemma {:induction false} TextKeeps<S>(parse: string -> Option<S>, commits: nat -> bool, p: Progress<S>, text: string,
                                        parsed: seq<S>, malformed: nat)
    requires Accounted(commits, p, parsed, malformed)
    ensures Accounted(commits, AfterText(parse, commits, p, text), parsed + Parsed(parse, text),
              malformed + Malformed(parse, text))
    decreases |text|
  {
    hide *;
    if text == "" {
      NoText(parse, commits, p);
      assert parsed + [] == parsed;
    } else {
      var (line, rest) := ReadLine(text);
      FirstLine(parse, commits, p, text);
      LineKeeps(parse, commits, p, line, parsed, malformed);
      TextKeeps(parse, commits, AfterLine(parse, commits, p, line), rest, parsed + ParsedLine(parse, line),
        malformed + MalformedLine(parse, line));
      assert parsed + ParsedLine(parse, line) + Parsed(parse, rest) == parsed + Parsed(parse, text);
    }
  }

  /** Whichever commits fail: the stored shares followed by the buffer are the parsed shares, in order.
      Everything is stored exactly when the last commit, if there was any, succeeded. */
  lemma RecoveryLosesNothing<S>(parse: string -> Option<S>, commits: nat -> bool, text: string)
    ensures var p := Recovered(parse, commits, text);
      && p.stored + p.buffer == Parsed(parse, text)
      && p.successCount == |p.stored|
      && p.failCount == Malformed(parse, text) + FailedCommits(commits, p.attempts)
      && (p.stored == Parsed(parse, text) <==> p.attempts == 0 || commits(p.attempts - 1))
      && (p.failCount == 0 ==> p.stored == Parsed(parse, text))
  {
    hide AfterText, Parsed, Malformed;
    var start: Progress<S> := Progress([], [], 0, 0, 0);
    TextKeeps(parse, commits, start, text, [], 0);
    assert [] + Parsed(parse, text) == Parsed(parse, text);
    var p := AfterText(parse, commits, start, text);
    if |p.buffer| > 0 {
      CommitKeeps(commits, p, Parsed(parse, text), Malformed(parse, text));
    }
    var q := Recovered(parse, commits, text);
    assert |q.stored + q.buffer| == |q.stored| + |q.buffer|;
    if q.buffer == [] {
      assert q.stored + q.buffer == q.stored;
    }
  }

  // --- When all records parse ---

  /** The import of one more share. */
  function AfterShare<S>(commits: nat -> bool, p: Progress<S>, share: S): Progress<S> {
    var q := p.(buffer := p.buffer + [share]);
    if |q.buffer| == BATCH_SIZE then Commit(commits, q) else q
  }

  function AfterShares<S>(commits: nat -> bool, p: Progress<S>, shares: seq<S>): Progress<S>
    decreases |shares|
  {
    if shares == [] then p else AfterShares(commits, AfterShare(commits, p, shares[0]), shares[1..])
  }

  /** Then the text is imported share by share. */
  lemma {:induction false} GoodText<S>(parse: string -> Option<S>, commits: nat -> bool, p: Progress<S>, text: string)
    requires Malformed(parse, text) == 0
    ensures AfterText(parse, commits, p, text) == AfterShares(commits, p, Parsed(parse, text))
    decreases |text|
  {
    hide AfterText, Parsed, Malformed, ReadLine, Content, Commit;
    if text == "" {
      NoText(parse, commits, p);
    } else {
      var (line, rest) := ReadLine(text);
      FirstLine(parse, commits, p, text);
      GoodText(parse, commits, AfterLine(parse, commits, p, line), rest);
      match Content(line) {
        case None => assert ParsedLine(parse, line) + Parsed(parse, rest) == Parsed(parse, rest);
        case Some(s) =>
          var share := parse(s).value;
          assert ([share] + Parsed(parse, rest))[1..] == Parsed(parse, rest);
      }
    }
  }

  lemma {:induction false} InTwoParts<S>(commits: nat -> bool, p: Progress<S>, front: seq<S>, back: seq<S>)
    ensures AfterShares(commits, p, front + back) == AfterShares(commits, AfterShares(commits, p, front), back)
    decreases |front|
  {
    hide AfterShare;
    if front == [] {
      assert front + back == back;
    } else {
      assert (front + back)[1..] == front[1..] + back;
      InTwoParts(commits, AfterShare(commits, p, front[0]), front[1..], back);
    }
  }

  /** A buffer that does not come to a batch, or has come past one, just grows. */
  lemma {:induction false} BufferGrows<S>(commits: nat -> bool, p: Progress<S>, shares: seq<S>)
    requires |p.buffer| + |shares| < BATCH_SIZE || |p.buffer| >= BATCH_SIZE
    ensures AfterShares(commits, p, shares) == p.(buffer := p.buffer + shares)
    decreases |shares|
  {
    hide Commit;
    if shares == [] {
      assert p.buffer + shares == p.buffer;
    } else {
      var q := AfterShare(commits, p, shares[0]);
      BufferGrows(commits, q, shares[1..]);
      assert q.buffer + shares[1..] == p.buffer + shares;
    }
  }

  /** A batch from an empty buffer. */
  lemma FirstBatch<S>(commits: nat -> bool, p: Progress<S>, shares: seq<S>)
    requires p.buffer == [] && |shares| >= BATCH_SIZE
    ensures AfterShares(commits, p, shares)
      == AfterShares(commits, Commit(commits, p.(buffer := shares[..BATCH_SIZE])), shares[BATCH_SIZE..])
  {
    hide Commit;
    var front, share, back := shares[..BATCH_SIZE - 1], shares[BATCH_SIZE - 1], shares[BATCH_SIZE..];
    assert shares == front + ([share] + back) && ([share] + back)[1..] == back;
    InTwoParts(commits, p, front, [share] + back);
    BufferGrows(commits, p, front);
    assert p.buffer + front + [share] == shares[..BATCH_SIZE];
  }

  /** How many of the full batches of `n` shares are committed before the first that fails; attempt `a` is
      the first. */
  function Committed(commits: nat -> bool, a: nat, n: nat): (f: nat)
    ensures 100 * f <= n
    decreases n
  {
    if n < BATCH_SIZE || !commits(a) then 0 else 1 + Committed(commits, a + 1, n - BATCH_SIZE)
  }

  /** All of those are committed, and the next full batch, if there is one, is not. */
  lemma {:induction false} CommittedIs(commits: nat -> bool, a: nat, n: nat)
    ensures forall i: nat :: a <= i < a + Committed(commits, a, n) ==> commits(i)
    ensures n - 100 * Committed(commits, a, n) >= 100 ==> !commits(a + Committed(commits, a, n))
    decreases n
  {
    if n >= BATCH_SIZE && commits(a) {
      CommittedIs(commits, a + 1, n - BATCH_SIZE);
    }
  }

  /** Batch after batch is stored until a commit fails; then all that is left stays in the buffer. */
  lemma {:induction false} AfterBatches<S>(commits: nat -> bool, p: Progress<S>, shares: seq<S>)
    requires p.buffer == []
    ensures var q, f := AfterShares(commits, p, shares), Committed(commits, p.attempts, |shares|);
      && q.stored == p.stored + shares[..BATCH_SIZE * f] && q.buffer == shares[BATCH_SIZE * f..]
      && q.attempts == p.attempts + f + if |q.buffer| >= BATCH_SIZE then 1 else 0
    decreases |shares|
  {
    hide AfterShares;
    if |shares| < BATCH_SIZE {
      BufferGrows(commits, p, shares);
      assert p.buffer + shares == shares && p.stored + shares[..0] == p.stored;
    } else {
      FirstBatch(commits, p, shares);
      var q, rest := Commit(commits, p.(buffer := shares[..BATCH_SIZE])), shares[BATCH_SIZE..];
      if commits(p.attempts) {
        AfterBatches(commits, q, rest);
        var f := Committed(commits, q.attempts, |rest|);
        assert shares[..BATCH_SIZE * (f + 1)] == shares[..BATCH_SIZE] + rest[..BATCH_SIZE * f];
        assert shares[BATCH_SIZE * (f + 1)..] == rest[BATCH_SIZE * f..];
        assert p.stored + shares[..BATCH_SIZE] + rest[..BATCH_SIZE * f] == p.stored + shares[..BATCH_SIZE * (f + 1)];
      } else {
        BufferGrows(commits, q, rest);
        assert q.buffer + rest == shares && p.stored + shares[..0] == p.stored;
      }
    }
  }

  /** What an import stores when every record parses: the batches before the first failed commit and, if
      the last commit succeeds, everything. There is one more commit, for all that is left, unless nothing
      is. */
  lemma StoredExactly<S>(parse: string -> Option<S>, commits: nat -> bool, text: string)
    requires Malformed(parse, text) == 0
    ensures var p, all := Recovered(parse, commits, text), Parsed(parse, text);
      var f := Committed(commits, 0, |all|);
      var left := |all| - 100 * f;
      var last := if left >= 100 then f + 1 else f;
      && p.stored == (if left == 0 || commits(last) then all else all[..100 * f])
      && p.attempts == (if left == 0 then f else last + 1)
      && (forall i: nat :: i < f ==> commits(i)) && (left >= 100 ==> !commits(f))
  {
    hide AfterText, Parsed, Malformed, AfterShares, Committed;
    var start: Progress<S> := Progress([], [], 0, 0, 0);
    var all := Parsed(parse, text);
    GoodText(parse, commits, start, text);
    AfterBatches(commits, start, all);
    CommittedIs(commits, 0, |all|);
    var f := Committed(commits, 0, |all|);
    assert [] + all[..100 * f] == all[..100 * f];
    assert all[..100 * f] + all[100 * f..] == all;
  }

  // --- After a failed commit ---

  /** The first record of a text. */
  function FirstContent(text: string): Option<string>
    decreases |text|
  {
    if text == "" then None
    else
      var (line, rest) := ReadLine(text);
      if Content(line).Some? then Content(line) else FirstContent(rest)
  }

  /** A buffer that has outgrown a batch is not committed before the end of the file. */
  lemma {:induction false} Outgrown<S>(parse: string -> Option<S>, commits: nat -> bool, p: Progress<S>, text: string)
    requires |p.buffer| > 100
    ensures var q := AfterText(parse, commits, p, text);
      && q.stored == p.stored && q.attempts == p.attempts && q.successCount == p.successCount
      && q.buffer == p.buffer + Parsed(parse, text)
      && q.failCount == p.failCount + Malformed(parse, text)
    decreases |text|
  {
    hide AfterText, Parsed, Malformed, ReadLine, Content;
    if text == "" {
      NoText(parse, commits, p);
      assert p.buffer + [] == p.buffer;
    } else {
      var (line, rest) := ReadLine(text);
      FirstLine(parse, commits, p, text);
      var q := AfterLine(parse, commits, p, line);
      assert q.buffer == p.buffer + ParsedLine(parse, line);
      Outgrown(parse, commits, q, rest);
      assert q.buffer + Parsed(parse, rest) == p.buffer + Parsed(parse, text);
    }
  }

  /** A full buffer that failed to commit is tried again during the import exactly when the next record
      does not parse: a share makes it outgrow the batch, and then everything left, with all that
      follows, hangs on the last commit. */
  lemma {:induction false} RetriedExactlyWhen<S>(parse: string -> Option<S>, commits: nat -> bool, p: Progress<S>,
                                                 text: string)
    requires |p.buffer| == 100
    ensures var q := AfterText(parse, commits, p, text);
      && (q.attempts > p.attempts <==> FirstContent(text).Some? && parse(FirstContent(text).value).None?)
      && (q.attempts == p.attempts ==> q.stored == p.stored && q.buffer == p.buffer + Parsed(parse, text))
      && q.attempts >= p.attempts
    decreases |text|
  {
    hide AfterText, Parsed, Malformed, ReadLine, Content, FirstContent;
    FirstContentIs(text);
    if text == "" {
      NoText(parse, commits, p);
      assert p.buffer + [] == p.buffer;
    } else {
      var (line, rest) := ReadLine(text);
      FirstLine(parse, commits, p, text);
      var q := AfterLine(parse, commits, p, line);
      match Content(line) {
        case None =>
          assert q == p && ParsedLine(parse, line) == [];
          RetriedExactlyWhen(parse, commits, p, rest);
          assert [] + Parsed(parse, rest) == Parsed(parse, rest);
        case Some(s) =>
          match parse(s) {
            case Some(share) =>
              Outgrown(parse, commits, q, rest);
              assert ParsedLine(parse, line) == [share];
              assert q.buffer + Parsed(parse, rest) == p.buffer + Parsed(parse, text);
            case None =>
              assert q.attempts == p.attempts + 1;
              AttemptsGrow(parse, commits, q, rest);
          }
      }
    }
  }

  lemma FirstContentIs(text: string)
    ensures text == "" ==> FirstContent(text) == None
    ensures text != "" ==>
      var (line, rest) := ReadLine(text);
      FirstContent(text) == if Content(line).Some? then Content(line) else FirstContent(rest)
  {
    hide ReadLine, Content;
  }

  lemma {:induction false} AttemptsGrow<S>(parse: string -> Option<S>, commits: nat -> bool, p: Progress<S>,
                                          text: string)
    ensures AfterText(parse, commits, p, text).attempts >= p.attempts
    decreases |text|
  {
    hide AfterText, ReadLine, Content;
    if text == "" {
      NoText(parse, commits, p);
    } else {
      FirstLine(parse, commits, p, text);
      AttemptsGrow(parse, commits, AfterLine(parse, commits, p, ReadLine(text).0), ReadLine(text).1);
    }
  }

  // --- The classes ---

  /** The share and block tables, written in one transaction. */
  class ShareStore<S(==)> {
    var shares: seq<S>
    var blocks: seq<S>
    const isBlockCandidate: S -> bool

    constructor (isBlockCandidate: S -> bool)
      ensures this.isBlockCandidate == isBlockCandidate && shares == [] && blocks == []
    {
      this.isBlockCandidate := isBlockCandidate;
      shares, blocks := [], [];
    }

    /** Stores a batch, and a pending block for each block candidate in it, or nothing. */
    method PersistSharesCore(batch: seq<S>, commits: bool) returns (ok: bool)
      modifies this
      ensures ok == commits
      ensures shares == if ok then old(shares) + batch else old(shares)
      ensures blocks == if ok then old(blocks) + Candidates(isBlockCandidate, batch) else old(blocks)
    {
      var newShares, newBlocks := shares + batch, blocks;
      for i := 0 to |batch|
        invariant newBlocks == blocks + Candidates(isBlockCandidate, batch[..i])
      {
        assert batch[..i + 1][..i] == batch[..i];
        if isBlockCandidate(batch[i]) {
          newBlocks := newBlocks + [batch[i]];
        }
      }
      assert batch[..|batch|] == batch;
      if commits {
        shares, blocks := newShares, newBlocks;
      }
      return commits;
    }
  }

  function Candidates<S>(isBlockCandidate: S -> bool, s: seq<S>): seq<S> {
    if s == [] then []
    else Candidates(isBlockCandidate, s[..|s| - 1]) + if isBlockCandidate(s[|s| - 1]) then [s[|s| - 1]] else []
  }

  /** The blocks found are those shares that are candidates, in their order: `at` says which. */
  lemma {:induction false} CandidatesAre<S>(isBlockCandidate: S -> bool, s: seq<S>) returns (at: seq<nat>)
    ensures |Candidates(isBlockCandidate, s)| == |at|
    ensures forall i :: 0 <= i < |at| ==> at[i] < |s| && Candidates(isBlockCandidate, s)[i] == s[at[i]]
    ensures forall i, j :: 0 <= i < j < |at| ==> at[i] < at[j]
    ensures forall k: nat :: k < |s| ==> (isBlockCandidate(s[k]) <==> k in at)
  {
    if s == [] {
      at := [];
    } else {
      var n := |s| - 1;
      at := CandidatesAre(isBlockCandidate, s[..n]);
      if isBlockCandidate(s[n]) {
        OneMoreFound(at, n);
        at := at + [n];
      }
    }
  }

  lemma OneMoreFound(at: seq<nat>, n: nat)
    requires forall i :: 0 <= i < |at| ==> at[i] < n
    ensures n !in at && forall k :: k in at + [n] <==> k in at || k == n
  {
  }

  lemma NoCandidates<S>(isBlockCandidate: S -> bool)
    ensures Candidates(isBlockCandidate, []) == []
  {
  }

  lemma {:induction false} CandidatesAppend<S>(isBlockCandidate: S -> bool, s: seq<S>, t: seq<S>)
    ensures Candidates(isBlockCandidate, s + t) == Candidates(isBlockCandidate, s) + Candidates(isBlockCandidate, t)
  {
    if t == [] {
      assert s + t == s;
    } else {
      CandidatesAppend(isBlockCandidate, s, t[..|t| - 1]);
      assert (s + t)[..|s + t| - 1] == s + t[..|t| - 1];
    }
  }

  /** The tables hold what they held before, the stored shares, and the blocks those found. */
  predicate Holds<S>(db: ShareStore<S>, shares: seq<S>, blocks: seq<S>, stored: seq<S>)
    reads db
  {
    db.shares == shares + stored && db.blocks == blocks + Candidates(db.isBlockCandidate, stored)
  }

  lemma HoldsMore<S>(db: ShareStore<S>, shares: seq<S>, blocks: seq<S>, stored: seq<S>, batch: seq<S>)
    requires Holds(db, shares, blocks, stored)
    ensures db.shares + batch == shares + (stored + batch)
    ensures db.blocks + Candidates(db.isBlockCandidate, batch)
      == blocks + Candidates(db.isBlockCandidate, stored + batch)
  {
    CandidatesAppend(db.isBlockCandidate, stored, batch);
  }

  method RecoverShares<S>(db: ShareStore<S>, text: string, parse: string -> Option<S>, commits: nat -> bool)
    returns (successCount: nat, failCount: nat)
    modifies db
    ensures var p := Recovered(parse, commits, text);
      && db.shares == old(db.shares) + p.stored
      && db.blocks == old(db.blocks) + Candidates(db.isBlockCandidate, p.stored)
      && successCount == p.successCount && failCount == p.failCount
  {
    hide ReadLine, Content, AfterText, Candidates, Parsed, Malformed, ParsedLine, MalformedLine;
    successCount, failCount := 0, 0;
    var shares, attempts, rest := [], 0, text;
    ghost var p: Progress<S> := Progress([], [], 0, 0, 0);
    NoCandidates(db.isBlockCandidate);
    while rest != ""
      invariant p == Progress(p.stored, shares, successCount, failCount, attempts)
      invariant Holds(db, old(db.shares), old(db.blocks), p.stored)
      invariant AfterText(parse, commits, p, rest) == AfterText(parse, commits, Progress([], [], 0, 0, 0), text)
      decreases |rest|
    {
      FirstLine(parse, commits, p, rest);
      var (line, remainder) := ReadLine(rest);
      rest := remainder;
      ghost var q := AfterLine(parse, commits, p, line);
      match Content(line) {
        case None =>
        case Some(s) =>
          match parse(s) {
            case Some(share) => shares := shares + [share];
            case None => failCount := failCount + 1;
          }
          if |shares| == BATCH_SIZE {
            HoldsMore(db, old(db.shares), old(db.blocks), p.stored, shares);
            var ok := db.PersistSharesCore(shares, commits(attempts));
            attempts := attempts + 1;
            if ok {
              successCount := successCount + |shares|;
              shares := [];
            } else {
              failCount := failCount + 1;
            }
          }
      }
      p := q;
    }
    NoText(parse, commits, p);
    if |shares| > 0 {
      HoldsMore(db, old(db.shares), old(db.blocks), p.stored, shares);
      var ok := db.PersistSharesCore(shares, commits(attempts));
      if ok {
        successCount := successCount + |shares|;
      } else {
        failCount := failCount + 1;
      }
    }
  }
}
