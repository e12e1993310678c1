/** Fallback writes that stop half-way: what the next batch and the import make of the last, unterminated
    line. The file is not empty then, so the next batch follows without a header, on that very line. */
module ShareTornWrites {
  import opened ShareRecovery
  import opened ShareFallback
  import opened Wrappers

  // --- Where a write stopped ---

  /** What is left of the first `n` characters behind the line of `share`. */
  function Behind<S>(ser: S -> string, nl: string, share: S, n: nat): nat {
    if n < |ser(share)| + |nl| then 0 else n - |ser(share)| - |nl|
  }

  /** How many lines the first `n` characters terminate; one character of a terminator is enough. */
  function Kept<S>(ser: S -> string, nl: string, shares: seq<S>, n: nat): (k: nat)
    ensures k <= |shares|
    decreases |shares|
  {
    if shares == [] || n <= |ser(shares[0])| then 0
    else 1 + Kept(ser, nl, shares[1..], Behind(ser, nl, shares[0], n))
  }

  /** The unterminated rest: a part of the next record, or nothing. */
  function Piece<S>(ser: S -> string, nl: string, shares: seq<S>, n: nat): string
    decreases |shares|
  {
    if shares == [] then ""
    else if n <= |ser(shares[0])| then ser(shares[0])[..n]
    else Piece(ser, nl, shares[1..], Behind(ser, nl, shares[0], n))
  }

  // --- What is read ---

  /** The shares read from a piece of a line that `next` was appended to. */
  function Joined<S>(ser: S -> string, parse: string -> Option<S>, piece: string, next: seq<S>): seq<S> {
    if next == [] then ParsedLine(parse, piece) else ParsedLine(parse, piece + ser(next[0])) + next[1..]
  }

  function JoinedMalformed<S>(ser: S -> string, parse: string -> Option<S>, piece: string, next: seq<S>): nat {
    MalformedLine(parse, if next == [] then piece else piece + ser(next[0]))
  }

  lemma LastLine<S>(parse: string -> Option<S>, line: string)
    requires NoBreaks(line)
    ensures Parsed(parse, line) == ParsedLine(parse, line) && Malformed(parse, line) == MalformedLine(parse, line)
  {
    hide Content, FirstBreak, ParsedLine, MalformedLine;
    NothingParsed(parse);
    if line == "" {
      EmptyLine(parse);
    } else {
      NoFirstBreak(line);
      FirstRecord(parse, line);
    }
  }

  lemma EmptyLine<S>(parse: string -> Option<S>)
    ensures ParsedLine(parse, "") == [] && MalformedLine(parse, "") == 0
  {
    EmptyLineSaysNothing();
  }

  lemma {:induction false} NoFirstBreak(line: string)
    requires NoBreaks(line)
    ensures FirstBreak(line) == |line|
  {
    if line != "" {
      NoFirstBreak(line[1..]);
    }
  }

  lemma TornIsRead<S(!new)>(ser: S -> string, parse: string -> Option<S>, nl: string, piece: string, next: seq<S>)
    requires RoundTrips(ser, parse) && IsNewLine(nl) && NoBreaks(piece)
    ensures Parsed(parse, piece + Written(ser, nl, next)) == Joined(ser, parse, piece, next)
    ensures Malformed(parse, piece + Written(ser, nl, next)) == JoinedMalformed(ser, parse, piece, next)
  {
    hide Parsed, Malformed, ParsedLine, MalformedLine, RoundTrips, IsNewLine;
    if next == [] {
      assert piece + "" == piece;
      LastLine(parse, piece);
    } else {
      var rest := Written(ser, nl, next[1..]);
      assert piece + Written(ser, nl, next) == (piece + ser(next[0])) + nl + rest;
      RecordIsParsed(ser, parse, next[0]);
      TerminatedLine(parse, piece + ser(next[0]), nl, rest);
      WrittenIsParsed(ser, parse, nl, next[1..]);
    }
  }

  /** A line that only a carriage return ends, in front of a record or nothing. */
  lemma HalfTerminated<S>(parse: string -> Option<S>, line: string, rest: string)
    requires NoBreaks(line) && (rest == "" || rest[0] != '\n')
    ensures Parsed(parse, line + "\r" + rest) == ParsedLine(parse, line) + Parsed(parse, rest)
    ensures Malformed(parse, line + "\r" + rest) == MalformedLine(parse, line) + Malformed(parse, rest)
  {
    hide Content, FirstBreak, ParsedLine, MalformedLine;
    var text := line + "\r" + rest;
    assert text == line + ("\r" + rest);
    FirstBreakIs(line, "\r" + rest);
    assert text[..|line|] == line && text[|line| + 1..] == rest;
    FirstRecord(parse, text);
  }

  /** The first `n` characters of a batch, and then the next batch. */
  lemma {:induction false} TornWritten<S(!new)>(ser: S -> string, parse: string -> Option<S>, nl: string,
                                                shares: seq<S>, n: nat, next: seq<S>)
    requires RoundTrips(ser, parse) && IsNewLine(nl) && n <= |Written(ser, nl, shares)|
    ensures var text, k := Written(ser, nl, shares)[..n] + Written(ser, nl, next), Kept(ser, nl, shares, n);
      var piece := Piece(ser, nl, shares, n);
      && Parsed(parse, text) == shares[..k] + Joined(ser, parse, piece, next)
      && Malformed(parse, text) == JoinedMalformed(ser, parse, piece, next)
    decreases |shares|
  {
    hide Parsed, Malformed, ParsedLine, MalformedLine, RoundTrips, Joined, JoinedMalformed;
    var more := Written(ser, nl, next);
    if shares == [] {
      TornIsRead(ser, parse, nl, "", next);
      assert Written(ser, nl, shares)[..n] + more == "" + more;
      assert [] + Joined(ser, parse, "", next) == Joined(ser, parse, "", next);
    } else {
      var line := ser(shares[0]);
      RecordIsParsed(ser, parse, shares[0]);
      var m, rest := Behind(ser, nl, shares[0], n), Written(ser, nl, shares[1..]);
      if n <= |line| {
        assert Written(ser, nl, shares)[..n] == line[..n];
        TornIsRead(ser, parse, nl, line[..n], next);
        assert shares[..0] + Joined(ser, parse, line[..n], next) == Joined(ser, parse, line[..n], next);
      } else {
        TornWritten(ser, parse, nl, shares[1..], m, next);
        var k := Kept(ser, nl, shares[1..], m);
        var piece := Piece(ser, nl, shares[1..], m);
        assert [shares[0]] + (shares[1..][..k] + Joined(ser, parse, piece, next))
            == shares[..k + 1] + Joined(ser, parse, piece, next);
        if n >= |line| + |nl| {
          assert Written(ser, nl, shares)[..n] + more == line + nl + (rest[..m] + more);
          TerminatedLine(parse, line, nl, rest[..m] + more);
        } else {
          assert Written(ser, nl, shares)[..n] + more == line + "\r" + (rest[..m] + more);
          StartsWithRecord(ser, parse, nl, next);
          HalfTerminated(parse, line, rest[..m] + more);
        }
      }
    }
  }

  lemma StartsWithRecord<S(!new)>(ser: S -> string, parse: string -> Option<S>, nl: string, shares: seq<S>)
    requires RoundTrips(ser, parse)
    ensures Written(ser, nl, shares) == "" || Written(ser, nl, shares)[0] == '{'
  {
    if shares != [] {
      assert IsRecord(ser(shares[0]));
    }
  }

  // --- What is lost ---

  /** A record cut off, with another one behind it on the line, is no JSON document; neither are two
      records. */
  ghost predicate RejectsTorn<S(!new)>(ser: S -> string, parse: string -> Option<S>) {
    forall s, t, n: nat :: 0 < n <= |ser(s)| ==> parse(ser(s)[..n] + ser(t)) == None
  }

  lemma {:induction false} PieceIsOf<S(!new)>(ser: S -> string, nl: string, shares: seq<S>, n: nat)
    returns (s: S, m: nat)
    requires Piece(ser, nl, shares, n) != ""
    ensures 0 < m <= |ser(s)| && Piece(ser, nl, shares, n) == ser(s)[..m]
    decreases |shares|
  {
    if n <= |ser(shares[0])| {
      s, m := shares[0], n;
    } else {
      s, m := PieceIsOf(ser, nl, shares[1..], Behind(ser, nl, shares[0], n));
    }
  }

  lemma TornRecord<S(!new)>(ser: S -> string, parse: string -> Option<S>, s: S, m: nat, next: seq<S>)
    requires RoundTrips(ser, parse) && RejectsTorn(ser, parse) && 0 < m <= |ser(s)| && next != []
    ensures Joined(ser, parse, ser(s)[..m], next) == next[1..]
    ensures JoinedMalformed(ser, parse, ser(s)[..m], next) == 1
  {
    var line := ser(s)[..m] + ser(next[0]);
    assert IsRecord(ser(s)) && IsRecord(ser(next[0]));
    TrimOfSolid(line);
    assert [] + next[1..] == next[1..];
  }

  /** A batch after `front` of which only `n` characters were written, not ending with a line, and then
      another batch: the import gets the first lines of the one, and all but the first share of the other.
      `front` is the file before, or the header of a new file. */
  lemma TornWriteSwallowsShare<S(!new)>(ser: S -> string, parse: string -> Option<S>, nl: string, front: string,
                                        shares: seq<S>, n: nat, next: seq<S>, commits: nat -> bool)
    requires RoundTrips(ser, parse) && RejectsTorn(ser, parse) && IsNewLine(nl) && WholeLines(front)
    requires n <= |Written(ser, nl, shares)| && Piece(ser, nl, shares, n) != "" && next != []
    ensures var text := front + Written(ser, nl, shares)[..n] + Written(ser, nl, next);
      var p := Recovered(parse, commits, text);
      && p.stored + p.buffer == Parsed(parse, front) + shares[..Kept(ser, nl, shares, n)] + next[1..]
      && p.failCount == Malformed(parse, front) + 1 + FailedCommits(commits, p.attempts)
  {
    hide Parsed, Malformed, RoundTrips, RejectsTorn, IsNewLine, WholeLines, Joined, JoinedMalformed, Written, Recovered,
      FailedCommits;
    var torn := Written(ser, nl, shares)[..n] + Written(ser, nl, next);
    var text := front + Written(ser, nl, shares)[..n] + Written(ser, nl, next);
    assert text == front + torn;
    WholeLinesFirst(parse, front, torn);
    TornWritten(ser, parse, nl, shares, n, next);
    var s, m := PieceIsOf(ser, nl, shares, n);
    TornRecord(ser, parse, s, m, next);
    RecoveryLosesNothing(parse, commits, text);
    assert Parsed(parse, front) + (shares[..Kept(ser, nl, shares, n)] + next[1..])
        == Parsed(parse, front) + shares[..Kept(ser, nl, shares, n)] + next[1..];
  }

  /** If the write stopped at the end of a line, the next batch loses nothing. */
  lemma WholeLinesLoseNothing<S(!new)>(ser: S -> string, parse: string -> Option<S>, nl: string, front: string,
                                       shares: seq<S>, n: nat, next: seq<S>)
    requires RoundTrips(ser, parse) && IsNewLine(nl) && WholeLines(front)
    requires n <= |Written(ser, nl, shares)| && Piece(ser, nl, shares, n) == ""
    ensures var text := front + Written(ser, nl, shares)[..n] + Written(ser, nl, next);
      && Parsed(parse, text) == Parsed(parse, front) + shares[..Kept(ser, nl, shares, n)] + next
      && Malformed(parse, text) == Malformed(parse, front)
  {
    hide Parsed, Malformed, RoundTrips, IsNewLine, WholeLines, Joined, JoinedMalformed, Written;
    var torn := Written(ser, nl, shares)[..n] + Written(ser, nl, next);
    assert front + Written(ser, nl, shares)[..n] + Written(ser, nl, next) == front + torn;
    WholeLinesFirst(parse, front, torn);
    TornWritten(ser, parse, nl, shares, n, next);
    NothingJoined(ser, parse, next);
    assert Parsed(parse, front) + (shares[..Kept(ser, nl, shares, n)] + next)
        == Parsed(parse, front) + shares[..Kept(ser, nl, shares, n)] + next;
  }

  lemma NothingJoined<S(!new)>(ser: S -> string, parse: string -> Option<S>, next: seq<S>)
    requires RoundTrips(ser, parse)
    ensures Joined(ser, parse, "", next) == next && JoinedMalformed(ser, parse, "", next) == 0
  {
    hide ParsedLine, MalformedLine, RoundTrips;
    if next == [] {
      EmptyLine(parse);
    } else {
      assert "" + ser(next[0]) == ser(next[0]);
      RecordIsParsed(ser, parse, next[0]);
      assert [next[0]] + next[1..] == next;
    }
  }

  /** A header that was cut off within a line makes a comment of the next share: it is lost without being
      counted as a failure. */
  lemma TornHeaderSwallowsShare<S(!new)>(ser: S -> string, parse: string -> Option<S>, nl: string, front: string,
                                         comment: string, next: seq<S>)
    requires RoundTrips(ser, parse) && IsNewLine(nl) && WholeLines(front) && IsComment(comment) && next != []
    ensures var text := front + comment + Written(ser, nl, next);
      && Parsed(parse, text) == Parsed(parse, front) + next[1..]
      && Malformed(parse, text) == Malformed(parse, front)
  {
    hide Parsed, Malformed, RoundTrips, IsNewLine, WholeLines, Written, Content;
    var torn := comment + Written(ser, nl, next);
    assert front + comment + Written(ser, nl, next) == front + torn;
    WholeLinesFirst(parse, front, torn);
    TornIsRead(ser, parse, nl, comment, next);
    CommentSaysNothing(comment + ser(next[0]));
    assert [] + next[1..] == next[1..];
  }
}
