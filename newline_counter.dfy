/** NewlineCounter: count the lines of a stream read from an io.Reader,
    giving the same number whether or not the final line is terminated. */
module NewlineCounter {
  import opened Bytes
  import opened Io

  /** The size of the buffer NewlineCounter reads into. */
  const ReadBufferSize: nat := 4096

  /** The count NewlineCounter reports for the stream `s`: its newlines,
      one more when its final line is unterminated, and zero for the
      stream "\n". */
  function LineCount(s: seq<byte>): int
  {
    if s == [] then 0
    else if s[|s| - 1] != NL then Count(s, NL) + 1
    else if |s| == 1 then Count(s, NL) - 1
    else Count(s, NL)
  }

  /** Reads `r` to its first error and counts lines. io.EOF (also when
      wrapped) ends the stream cleanly; any other error is returned with
      the count of the bytes read before it. */
  method NewlineCounter(r: Reader) returns (count: int, err: Option<Error>)
    modifies r
    ensures count == LineCount(old(Pending(r.steps)))
    ensures err == (var e := old(Outcome(r.steps)); if IsEOF(e) then None else Some(e))
  {
    ghost var pending, outcome := Pending(r.steps), Outcome(r.steps);
    var buf := new byte[ReadBufferSize];
    var newlines: int, total: int := 0, 0;
    var isNotFinalNewline := false;
    ghost var seen: seq<byte> := [];
    // done stands for the loop's break.
    var done := false;
    err := None;
    while !done
      invariant !done ==> seen + Pending(r.steps) == pending && Outcome(r.steps) == outcome
      invariant total == |seen| && newlines == Count(seen, NL)
      invariant isNotFinalNewline == (seen != [] && seen[|seen| - 1] != NL)
      invariant done ==> seen == pending && err == (if IsEOF(outcome) then None else Some(outcome))
      decreases !done, Size(r.steps)
    {
      ghost var before, steps := seen, r.steps;
      var n, e := r.Read(buf, 0);
      ghost var chunk := if n >= 0 then buf[0..n] else [];
      if n > 0 {
        total := total + n;
        isNotFinalNewline := buf[n - 1] != NL;
        var found := CountNewlines(buf[0..n]);
        Tally(seen, chunk, newlines, found);
        newlines := newlines + found;
        seen := seen + chunk;
      }
      Consumed(before, seen, chunk, steps, r.steps, n, e, pending);
      if e.Some? {
        err := if IsEOF(e.value) then None else e;
        done := true;
      }
    }
    Adjusted(seen, newlines, total, isNotFinalNewline);
    // Report the same number whether or not the stream ends in a newline.
    if isNotFinalNewline {
      newlines := newlines + 1;
    } else if total == 1 {
      newlines := newlines - 1;
    }
    count := newlines;
  }

  /** One chunk read: its newlines add to the count, and it ends the
      bytes read so far. */
  lemma Tally(seen: seq<byte>, chunk: seq<byte>, newlines: int, found: int)
    requires chunk != [] && newlines == Count(seen, NL) && found == Count(chunk, NL)
    ensures newlines + found == Count(seen + chunk, NL)
    ensures (seen + chunk)[|seen + chunk| - 1] == chunk[|chunk| - 1]
  {
    CountAppend(seen, chunk, NL);
  }

  /** One read of the loop: the bytes read so far, followed by what the
      reader still holds, are the bytes of the whole stream. */
  lemma Consumed(before: seq<byte>, seen: seq<byte>, chunk: seq<byte>, steps: seq<Step>, steps': seq<Step>,
                 n: int, e: Option<Error>, pending: seq<byte>)
    requires before + Pending(steps) == pending && Answered(steps, steps', chunk, n, e)
    requires seen == if n > 0 then before + chunk else before
    ensures e.None? ==> seen + Pending(steps') == pending
    ensures e.Some? ==> seen == pending
  {
    if n <= 0 {
      assert chunk == [];
      assert before + chunk == before;
    }
    Associate(before, chunk, Pending(steps'));
  }

  /** The final adjustment: the newlines of the bytes read, one more for
      an unterminated final line, one fewer for the lone "\n". */
  lemma Adjusted(seen: seq<byte>, newlines: int, total: int, isNotFinalNewline: bool)
    requires total == |seen| && newlines == Count(seen, NL)
    requires isNotFinalNewline == (seen != [] && seen[|seen| - 1] != NL)
    ensures LineCount(seen) == if isNotFinalNewline then newlines + 1 else if total == 1 then newlines - 1 else newlines
  {
  }

  /** The inner loop of newlineCounter.go: count the newlines of one
      chunk by repeated IndexByte searches. */
  method CountNewlines(chunk: seq<byte>) returns (found: nat)
    ensures found == Count(chunk, NL)
  {
    found := 0;
    var searchOffset := 0;
    assert chunk[..searchOffset] == [];
    while true
      invariant 0 <= searchOffset <= |chunk|
      invariant found == Count(chunk[..searchOffset], NL)
      decreases |chunk| - searchOffset
    {
      var index := IndexByte(chunk[searchOffset..], NL);
      if index == -1 {
        CountRest(chunk, searchOffset);
        break;
      }
      // Count this newline, then search after it.
      found := found + 1;
      CountStep(chunk, searchOffset);
      searchOffset := searchOffset + index + 1;
    }
  }

  /** One round of the inner search: the newline IndexByte finds after
      `from` adds one to the count of the bytes searched. */
  lemma CountStep(chunk: seq<byte>, from: nat)
    requires from <= |chunk| && IndexByte(chunk[from..], NL) >= 0
    ensures var i := from + IndexByte(chunk[from..], NL);
      Count(chunk[..i + 1], NL) == Count(chunk[..from], NL) + 1
  {
    var rest := chunk[from..];
    var index := IndexByte(rest, NL);
    var gap := rest[..index];
    var nl: seq<byte> := [NL];
    IndexByteFirst(rest, NL);
    assert Count(nl, NL) == 1 by { assert nl[..0] == []; }
    CountNone(gap, NL);
    CountAppend(chunk[..from], gap, NL);
    CountAppend(chunk[..from] + gap, nl, NL);
    assert rest[..index + 1] == gap + nl;
    assert chunk[..from + index + 1] == chunk[..from] + rest[..index + 1];
    Associate(chunk[..from], gap, nl);
  }

  /** The last round: no newline after `from`, so the whole chunk counts
      as much as its searched part. */
  lemma CountRest(chunk: seq<byte>, from: nat)
    requires from <= |chunk| && IndexByte(chunk[from..], NL) < 0
    ensures Count(chunk, NL) == Count(chunk[..from], NL)
  {
    IndexByteFirst(chunk[from..], NL);
    CountNone(chunk[from..], NL);
    CountAppend(chunk[..from], chunk[from..], NL);
    assert chunk[..from] + chunk[from..] == chunk;
  }

  /** A lone newline counts as no line, like the empty stream. */
  lemma EmptyStreams()
    ensures LineCount([]) == 0 && LineCount([NL]) == 0
  {
    var s: seq<byte> := [NL];
    assert s[..0] == [];
    assert Count(s, NL) == 1;
  }

  /** Terminating the final line does not change the count. */
  lemma TerminatedSameAsUnterminated(s: seq<byte>)
    requires s != [] && s[|s| - 1] != NL
    ensures LineCount(s + [NL]) == LineCount(s)
  {
    CountAppend(s, [NL], NL);
    assert (s + [NL])[..|s|] == s;
  }

  /** The newlines of terminated lines are one per line. */
  lemma {:induction false} CountOfLines(lines: seq<seq<byte>>)
    requires forall i :: 0 <= i < |lines| ==> IsLine(lines[i])
    ensures Count(Concat(lines), NL) == |lines|
  {
    if lines != [] {
      var last := lines[|lines| - 1];
      CountOfLines(lines[..|lines| - 1]);
      CountNone(last[..|last| - 1], NL);
      CountAppend(last[..|last| - 1], [NL], NL);
      assert last == last[..|last| - 1] + [NL];
      CountAppend(Concat(lines[..|lines| - 1]), last, NL);
    }
  }

  /** A concatenation of lines ends in a newline. */
  lemma ConcatEndsInNewline(lines: seq<seq<byte>>)
    requires lines != [] && IsLine(lines[|lines| - 1])
    ensures EndsInNewline(Concat(lines))
  {
  }

  /** The stream of `lines`, optionally followed by an unterminated final
      line `tail`, counts one per line; the one exception is the stream
      made of a single empty line, "\n". */
  lemma LinesCounted(lines: seq<seq<byte>>, tail: seq<byte>)
    requires forall i :: 0 <= i < |lines| ==> IsLine(lines[i])
    requires forall k :: 0 <= k < |tail| ==> tail[k] != NL
    requires Concat(lines) + tail != [NL]
    ensures LineCount(Concat(lines) + tail) == |lines| + (if tail == [] then 0 else 1)
  {
    var c := Concat(lines);
    var s := c + tail;
    CountOfLines(lines);
    CountNone(tail, NL);
    CountAppend(c, tail, NL);
    if tail == [] {
      assert s == c;
      if lines != [] {
        ConcatEndsInNewline(lines);
        Terminated(s);
      }
    } else {
      assert s[|s| - 1] == tail[|tail| - 1];
    }
  }

  /** A stream that ends in a newline, other than "\n", counts its newlines. */
  lemma Terminated(s: seq<byte>)
    requires EndsInNewline(s) && s != [NL]
    ensures LineCount(s) == Count(s, NL)
  {
  }
}
