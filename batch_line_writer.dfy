/** BatchLineWriter: an io.WriteCloser that buffers its input and hands
    the sink only newline-terminated runs of bytes, one Write call per
    flush, once the buffered run reaches a threshold. */
module BatchLine {
  import opened Bytes
  import opened Io

  /** The room ReadFrom asks bufferGrow for before each read. */
  const MinRead: nat := 512

  /** The capacity of the first buffer allocated for a small write. */
  const SmallBufferSize: nat := 64

  /** The cached index `idx` marks the last newline of `live`, the live
      region that starts at buffer index `off`; a negative index stands
      for "no newline". */
  predicate Tracks(live: seq<byte>, off: int, idx: int)
  {
    var k := LastIndexByte(live, NL);
    if k < 0 then idx < 0 else idx == off + k
  }

  /** What a flush of the live region `live` would hand the sink: the
      prefix up to and including its last newline, once `live` holds at
      least `threshold` bytes and has a newline at all. */
  function Request(live: seq<byte>, threshold: int): Option<seq<byte>>
  {
    var k := LastIndexByte(live, NL);
    if |live| >= threshold && k >= 0 then Some(live[..k + 1]) else None
  }

  /** A flush is due exactly when the live region has reached the
      threshold and holds a newline; it hands over a prefix of the live
      region that ends in a newline and leaves no newline behind. */
  lemma RequestSpec(live: seq<byte>, threshold: int)
    ensures var r := Request(live, threshold);
      && (r.Some? <==> |live| >= threshold && NL in live)
      && (r.Some? ==> r.value <= live && EndsInNewline(r.value))
      && (r.Some? ==> NL !in live[|r.value|..])
  {
    LastIndexByteFinds(live, NL);
    var r := Request(live, threshold);
    if r.Some? {
      AfterLast(live, |r.value|);
      LastIndexByteFinds(live[|r.value|..], NL);
    }
  }

  /** What Write, flush and ReadFrom report: the count and error returned
      to the caller, and the live region left in the buffer. */
  datatype Reported = Reported(n: int, err: Option<Error>, live: seq<byte>)

  /** The outcome of a flush of a prefix of `whole`, the live region whose
      first `leno` bytes were buffered before the current call added
      `lenp` more, when the sink answered `reply`. */
  function Flushed(whole: seq<byte>, leno: nat, lenp: nat, reply: Reply): Reported
    requires leno <= |whole| && reply.count <= |whole|
  {
    if reply.count < 0 then
      // A sink that breaks the io.Writer contract: nothing changes.
      Reported(reply.count, Some(InvalidWrite), whole)
    else if reply.err.None? then
      // Everything reported written; the rest stays buffered.
      Reported(lenp, None, whole[reply.count..])
    else if reply.count >= leno then
      // The old bytes and some new ones went out: the buffer is dropped.
      Reported(reply.count - leno, reply.err, [])
    else
      // Not even the old bytes all went out: the new ones are dropped.
      Reported(0, reply.err, whole[reply.count..leno])
  }

  /** The reply of a sink that keeps the io.Writer contract for a write
      of `len` bytes. */
  predicate Honest(reply: Reply, len: nat)
  {
    0 <= reply.count <= len && (reply.count < len ==> reply.err.Some?)
  }

  /** A reply that reports success. */
  predicate CleanReply(reply: Reply)
  {
    reply.count >= 0 && reply.err.None?
  }

  /** Every reply in `rs` reports success. */
  predicate Clean(rs: seq<Reply>)
  {
    forall i :: 0 <= i < |rs| ==> CleanReply(rs[i])
  }

  lemma CleanAppend(a: seq<Reply>, b: seq<Reply>)
    ensures Clean(a + b) <==> Clean(a) && Clean(b)
  {
    if Clean(a) && Clean(b) {
      forall i | 0 <= i < |a + b| ensures CleanReply((a + b)[i]) {
        if i >= |a| { assert (a + b)[i] == b[i - |a|]; }
      }
    }
    if Clean(a + b) {
      forall i | 0 <= i < |b| ensures CleanReply(b[i]) {
        assert (a + b)[|a| + i] == b[i];
      }
      forall i | 0 <= i < |a| ensures CleanReply(a[i]) {
        assert (a + b)[i] == a[i];
      }
    }
  }

  /** The error a failed flush reports. */
  function FlushError(reply: Reply): Option<Error>
  {
    if reply.count < 0 then Some(InvalidWrite) else reply.err
  }

  /** The Write calls the flush logic makes on the live region `input`:
      the request, when a flush is due, and no call otherwise. */
  function Sent(input: seq<byte>, threshold: int): seq<seq<byte>>
  {
    match Request(input, threshold)
    case None => []
    case Some(sent) => [sent]
  }

  /** What the flush logic reports on the live region `input`, whose
      first `leno` bytes were buffered before the `lenp` new ones, to a
      sink with `policy`: count 0, no error and nothing sent when no
      flush is due, and otherwise flush's outcome for the sink's reply. */
  function Due(input: seq<byte>, leno: nat, lenp: nat, threshold: int, policy: WritePolicy): Reported
    requires leno <= |input|
  {
    match Request(input, threshold)
    case None => Reported(0, None, input)
    case Some(sent) => Flushed(input, leno, lenp, Respond(policy, |sent|))
  }

  /** Every call the flush logic makes hands the sink a newline-terminated
      prefix of the live region, and it makes one exactly when the
      threshold is reached and a newline is buffered. */
  lemma SentLines(input: seq<byte>, threshold: int)
    ensures |Sent(input, threshold)| <= 1
    ensures Sent(input, threshold) != [] <==> |input| >= threshold && NL in input
    ensures forall i :: 0 <= i < |Sent(input, threshold)| ==>
      Sent(input, threshold)[i] <= input && EndsInNewline(Sent(input, threshold)[i])
  {
    RequestSpec(input, threshold);
  }

  /** One Write call: its reply is the policy's, and the sink takes what
      that reply accepts. */
  lemma OneCall(policy: WritePolicy, sent: seq<byte>)
    ensures Answers(policy, [sent]) == [Respond(policy, |sent|)]
    ensures Taken(policy, [sent]) == Accepted(sent, Respond(policy, |sent|).count)
  {
    assert [sent][..0] == [];
  }

  /** A sink that answered every call cleanly took every byte handed to
      it, in order. */
  lemma {:induction false} CleanTakesAll(policy: WritePolicy, cs: seq<seq<byte>>)
    requires Clean(Answers(policy, cs))
    ensures Taken(policy, cs) == Concat(cs)
  {
    if cs != [] {
      var init, last := cs[..|cs| - 1], cs[|cs| - 1];
      CleanAppend(Answers(policy, init), [Respond(policy, |last|)]);
      assert CleanReply([Respond(policy, |last|)][0]);
      CleanTakesAll(policy, init);
    }
  }

  /** A sink that takes every byte answers every call cleanly. */
  lemma AcceptAllClean(cs: seq<seq<byte>>)
    ensures Clean(Answers(AcceptAll, cs))
  {
    AnswersAt(AcceptAll, cs);
  }

  /** Newline-terminated calls, one after the other, end in a newline
      unless there are none. */
  lemma ConcatLines(cs: seq<seq<byte>>)
    requires forall i :: 0 <= i < |cs| ==> EndsInNewline(cs[i])
    ensures cs == [] || EndsInNewline(Concat(cs))
  {
  }

  /** A stream `lines + tail` whose `lines` end in a newline and whose
      unterminated `tail` reaches the threshold: once the sink was handed
      only newline-terminated calls and no flush is due on what stays
      buffered, the sink was handed exactly `lines` and `tail` stays
      buffered. */
  lemma TailStaysBuffered(cs: seq<seq<byte>>, live: seq<byte>, lines: seq<byte>, tail: seq<byte>, threshold: int)
    requires Concat(cs) + live == lines + tail
    requires forall i :: 0 <= i < |cs| ==> EndsInNewline(cs[i])
    requires EndsInNewline(lines) && NL !in tail && |tail| >= threshold
    requires Request(live, threshold).None?
    ensures Concat(cs) == lines && live == tail
  {
    ConcatLines(cs);
    RequestSpec(live, threshold);
    SameCut(Concat(cs), live, lines, tail);
  }

  /** Two ways of cutting one stream, `c + live == lines + tail`, agree
      when both first parts are empty or end in a newline, the tail holds
      no newline, and the rest `live` holds no newline once it is as long
      as the tail. */
  lemma SameCut(c: seq<byte>, live: seq<byte>, lines: seq<byte>, tail: seq<byte>)
    requires c + live == lines + tail
    requires c == [] || EndsInNewline(c)
    requires EndsInNewline(lines) && NL !in tail
    requires |live| >= |tail| ==> NL !in live
    ensures c == lines && live == tail
  {
    // the last newline of the stream ends `lines`, and it ends `c`
    LastIndexByteAppend(lines, tail, NL);
    LastIndexByteFinds(tail, NL);
    LastIndexByteAppend(c, live, NL);
    LastIndexByteFinds(live, NL);
    var s := lines + tail;
    assert c == s[..|c|] && lines == s[..|lines|];
  }

  /** Write's update of the cached index (batchLineWriter.go:289-291):
      appending `p` moves the mark to the last newline of `p` when `p`
      has one, and leaves it where it was otherwise. */
  lemma TracksAppend(live: seq<byte>, p: seq<byte>, off: int, idx: int)
    requires Tracks(live, off, idx)
    ensures Tracks(live + p, off, var j := LastIndexByte(p, NL); if j >= 0 then off + |live| + j else idx)
  {
    LastIndexByteAppend(live, p, NL);
  }

  /** While the cached index is kept, "no newline in the live region" is
      "the index lies before `off`", the test Write makes. */
  lemma TracksNone(live: seq<byte>, off: nat, idx: int)
    requires Tracks(live, off, idx)
    ensures idx < off <==> NL !in live
  {
    LastIndexByteFinds(live, NL);
  }

  /** No byte is lost or sent twice by a flush to a sink that keeps the
      io.Writer contract: the bytes the sink took, then those left
      buffered, then the bytes of p the caller is told were not taken,
      are exactly the old buffer followed by p. The count reported is
      that of p's bytes taken, and the error is nil exactly when the sink
      reported none. */
  lemma FlushConserves(whole: seq<byte>, leno: nat, sent: seq<byte>, reply: Reply)
    requires leno <= |whole| && sent <= whole && Honest(reply, |sent|)
    ensures var r := Flushed(whole, leno, |whole| - leno, reply);
      && 0 <= r.n <= |whole| - leno
      && (r.err.None? <==> reply.err.None?)
      && sent[..reply.count] + r.live + whole[leno + r.n..] == whole
  {
    var r := Flushed(whole, leno, |whole| - leno, reply);
    var c := reply.count;
    assert sent[..c] == whole[..c];
    if reply.err.None? {
      assert whole[..c] + whole[c..] + whole[|whole|..] == whole;
    } else if c >= leno {
      assert whole[..c] + [] + whole[c..] == whole;
    } else {
      assert whole[..c] + whole[c..leno] + whole[leno..] == whole;
    }
  }

  /** A flush that reports no error handed the sink all of `sent`, a
      prefix of the live region `whole`, and kept the rest buffered: the
      sink's bytes followed by the live region gain exactly `whole`. */
  lemma CleanFlushConserves(whole: seq<byte>, leno: nat, lenp: nat, sent: seq<byte>, reply: Reply, written: seq<byte>)
    requires leno <= |whole| && sent <= whole && reply.count <= |sent|
    requires reply.count >= 0 && reply.count < |sent| ==> reply.err.Some?
    ensures Flushed(whole, leno, lenp, reply).err.None? ==>
      (written + Accepted(sent, reply.count)) + Flushed(whole, leno, lenp, reply).live == written + whole
  {
    if Flushed(whole, leno, lenp, reply).err.None? {
      assert sent + whole[|sent|..] == whole;
      Associate(written, sent, whole[|sent|..]);
    }
  }

  /** After a successful flush of the request, no newline is left
      buffered: nothing more is flushable until new bytes arrive. */
  lemma CleanFlushSettles(whole: seq<byte>, leno: nat, threshold: int, reply: Reply)
    requires leno <= |whole| && Request(whole, threshold).Some?
    requires Honest(reply, |Request(whole, threshold).value|) && reply.err.None?
    ensures NL !in Flushed(whole, leno, |whole| - leno, reply).live
    ensures Request(Flushed(whole, leno, |whole| - leno, reply).live, threshold).None?
  {
    var sent := Request(whole, threshold).value;
    var rest := Flushed(whole, leno, |whole| - leno, reply).live;
    assert rest == whole[|sent|..];
    forall i | 0 <= i < |rest| ensures rest[i] != NL {
      assert rest[i] == whole[|sent| + i];
      LastIndexByteIsLast(whole, NL, |sent| + i);
    }
  }

  /** A flush is due as soon as the live region reaches the threshold,
      equality included, provided it holds a newline. */
  lemma FlushAtThreshold(live: seq<byte>, threshold: int)
    requires |live| == threshold && NL in live
    ensures Request(live, threshold).Some?
  {
    LastIndexByteFinds(live, NL);
  }

  /** The accounts of one call that appended bytes to the buffer, so
      that its bytes not yet handed to the sink became `input`, and then
      flushed if due: `w0` and `w1` are the bytes the sink took before
      and after, `live` the live region left, `added` the sink's replies
      (none or one) and (nw, werr) what the flush reported for the `lenp`
      new bytes. A clean call loses nothing and leaves nothing
      flushable; a failed one reports at most the new bytes, and the sink
      never took more than it was handed. */
  predicate Accounted(w0: seq<byte>, w1: seq<byte>, input: seq<byte>, live: seq<byte>, threshold: int,
                      added: seq<Reply>, nw: int, lenp: nat, werr: Option<Error>)
  {
    && |added| <= 1
    && (werr.None? ==> Clean(added) && w1 + live == w0 + input && Request(live, threshold).None?)
    && (werr.Some? ==>
          && nw <= lenp && |added| == 1 && !CleanReply(added[0]) && werr == FlushError(added[0])
          && w1 <= w0 + input)
  }

  /** One round of ReadFrom's loop on the reader's side: the chunk read
      extends the bytes drawn so far, and the script left still accounts
      for all the bytes and the final error of the original one. */
  lemma DrawAccounts(pending: seq<byte>, delivered: seq<byte>, drawn: seq<byte>,
                     steps: seq<Step>, steps': seq<Step>, p: seq<byte>, nr: nat, rerr: Option<Error>)
    requires drawn + Pending(steps) == pending && Answered(steps, steps', p, nr, rerr)
    ensures (delivered + drawn) + p == delivered + (drawn + p)
    ensures rerr.None? ==> (drawn + p) + Pending(steps') == pending && Outcome(steps') == Outcome(steps)
    ensures rerr.Some? ==> drawn + p == pending && rerr.value == Outcome(steps)
  {
    Associate(delivered, drawn, p);
    if rerr.None? {
      Associate(drawn, p, Pending(steps'));
    }
  }

  /** One round of ReadFrom's loop on the sink's side: with `total` the
      bytes the sink took plus the live region at the start of the call,
      a clean round keeps every byte drawn so far accounted for, and a
      failed one ends with exactly one unclean reply, its error reported
      and no byte taken that was not handed over. */
  lemma RoundAccounts(total: seq<byte>, drawn: seq<byte>, p: seq<byte>, w: seq<byte>, live: seq<byte>,
                      w': seq<byte>, live': seq<byte>, threshold: int, rs: seq<Reply>, added: seq<Reply>,
                      nw: int, nr: nat, werr: Option<Error>)
    requires w + live == total + drawn && Clean(rs)
    requires Accounted(w, w', live + p, live', threshold, added, nw, nr, werr)
    ensures werr.None? ==>
      && Clean(rs + added) && w' + live' == total + (drawn + p) && Request(live', threshold).None?
    ensures werr.Some? ==>
      var rs' := rs + added;
      && rs' != [] && Clean(rs'[..|rs'| - 1]) && !CleanReply(rs'[|rs'| - 1])
      && werr == FlushError(rs'[|rs'| - 1])
      && nw <= nr && w' <= total + (drawn + p)
  {
    Associate(w, live, p);
    Associate(total, drawn, p);
    if werr.None? {
      CleanAppend(rs, added);
    } else {
      assert (rs + added)[..|rs|] == rs;
    }
  }

  /** Nothing was due: the sink saw nothing and the bytes stay buffered. */
  lemma UnflushedAccounts(w: seq<byte>, live: seq<byte>, threshold: int, lenp: nat)
    requires Request(live, threshold).None?
    ensures Accounted(w, w, live, live, threshold, [], 0, lenp, None)
  {
  }

  /** The accounts of one flush of `whole`, whose first leno bytes were
      buffered before: the sink took Accepted(sent, reply.count) of the
      lines `sent` it was handed, and flush reported (n, err) and kept
      `live`. A clean flush loses nothing and leaves no full line behind
      to flush; a failed one reports at most the new bytes and never
      claims more than the sink could have taken. */
  lemma FlushAccounts(whole: seq<byte>, leno: nat, lenp: nat, threshold: int, sent: seq<byte>,
                      reply: Reply, written: seq<byte>, written': seq<byte>, n: int, err: Option<Error>, live: seq<byte>)
    requires leno + lenp == |whole|
    requires |sent| == LastIndexByte(whole, NL) + 1 && sent == whole[..|sent|]
    requires reply.count <= |sent| && (reply.count >= 0 && reply.err.None? ==> reply.count == |sent|)
    requires written' == written + Accepted(sent, reply.count)
    requires Reported(n, err, live) == Flushed(whole, leno, lenp, reply)
    ensures Accounted(written, written', whole, live, threshold, [reply], n, lenp, err)
  {
    if reply.count < 0 {
      assert err == Some(InvalidWrite) && written' == written + [];
      PrefixAppend(written, [], whole);
    } else if reply.err.Some? {
      assert err == reply.err && written' == written + sent[..reply.count];
      PrefixAppend(written, sent[..reply.count], whole);
    } else {
      assert err.None? && live == whole[|sent|..] && written' == written + sent;
      CleanAccounts(whole, sent, threshold, written, live);
    }
  }

  /** A complete flush: the sink took `sent`, the rest stays buffered. */
  lemma CleanAccounts(whole: seq<byte>, sent: seq<byte>, threshold: int, written: seq<byte>, live: seq<byte>)
    requires |sent| == LastIndexByte(whole, NL) + 1 && sent == whole[..|sent|]
    requires live == whole[|sent|..]
    ensures (written + sent) + live == written + whole && Request(live, threshold).None?
  {
    SettledAfter(whole, |sent|, threshold);
    assert sent + live == whole;
    Associate(written, sent, live);
  }

  /** What is left after a complete flush asks for no further flush. */
  lemma SettledAfter(whole: seq<byte>, j: nat, threshold: int)
    requires j == LastIndexByte(whole, NL) + 1
    ensures Request(whole[j..], threshold).None?
  {
    AfterLast(whole, j);
  }

  /** Nothing after the last newline is a newline. */
  lemma AfterLast(s: seq<byte>, j: nat)
    requires j == LastIndexByte(s, NL) + 1
    ensures LastIndexByte(s[j..], NL) < 0
  {
    var r := LastIndexByte(s[j..], NL);
    if r >= 0 {
      assert s[j + r] == s[j..][r];
      LastIndexByteIsLast(s, NL, j + r);
    }
  }

  /** A write of any prefix of `b` after `a` stays a prefix of a + b. */
  lemma PrefixAppend(a: seq<byte>, t: seq<byte>, b: seq<byte>)
    requires t <= b
    ensures a + t <= a + b
  {
    assert (a + b)[..|a + t|] == a + t;
  }

  /** ReadFrom's record of its sink: since the call began, with
      `calls0` and `written0` what the sink had received and taken
      before, it was handed the newline-terminated calls `cs`, answered
      them by its policy with `rs`, and took what those replies accept. */
  predicate Calls(policy: WritePolicy, calls0: seq<seq<byte>>, written0: seq<byte>, cs: seq<seq<byte>>,
                  rs: seq<Reply>, calls: seq<seq<byte>>, written: seq<byte>)
  {
    && calls == calls0 + cs && rs == Answers(policy, cs) && written == written0 + Taken(policy, cs)
    && forall i :: 0 <= i < |cs| ==> EndsInNewline(cs[i])
  }

  /** One round of ReadFrom's loop extends the record by the calls the
      flush logic made on the live region `input`. */
  lemma CallsAppend(policy: WritePolicy, calls0: seq<seq<byte>>, written0: seq<byte>, cs: seq<seq<byte>>,
                    rs: seq<Reply>, calls: seq<seq<byte>>, written: seq<byte>, input: seq<byte>, threshold: int,
                    calls': seq<seq<byte>>, written': seq<byte>, added: seq<Reply>)
    requires Calls(policy, calls0, written0, cs, rs, calls, written)
    requires calls' == calls + Sent(input, threshold) && added == Answers(policy, Sent(input, threshold))
    requires written' == written + Taken(policy, Sent(input, threshold))
    ensures Calls(policy, calls0, written0, cs + Sent(input, threshold), rs + added, calls', written')
  {
    var s := Sent(input, threshold);
    SentLines(input, threshold);
    AnswersAppend(policy, cs, s);
    TakenAppend(policy, cs, s);
    Associate(calls0, cs, s);
    Associate(written0, Taken(policy, cs), Taken(policy, s));
    forall i | 0 <= i < |cs + s| ensures EndsInNewline((cs + s)[i]) {
      if i >= |cs| { assert (cs + s)[i] == s[i - |cs|]; } else { assert (cs + s)[i] == cs[i]; }
    }
  }

  /** A round of ReadFrom's loop whose flush, if one was due, succeeded:
      the record of the sink and the bytes drawn extend by the round, and
      nothing is lost or handed over twice. When the read ended the
      script, the live region has nothing due and the sink took every
      call whole. */
  lemma CleanStep(policy: WritePolicy, threshold: int, written0: seq<byte>, live0: seq<byte>,
                  calls0: seq<seq<byte>>, pending0: seq<byte>, drawn: seq<byte>, cs: seq<seq<byte>>,
                  rs: seq<Reply>, steps: seq<Step>, written: seq<byte>, live: seq<byte>, calls: seq<seq<byte>>,
                  steps': seq<Step>, written': seq<byte>, live': seq<byte>, calls': seq<seq<byte>>,
                  p: seq<byte>, nr: nat, rerr: Option<Error>, added: seq<Reply>, nw: int, werr: Option<Error>)
    requires drawn + Pending(steps) == pending0 && Clean(rs)
    requires written + live == written0 + live0 + drawn
    requires Calls(policy, calls0, written0, cs, rs, calls, written)
    requires Answered(steps, steps', p, nr, rerr) && werr.None?
    requires Accounted(written, written', live + p, live', threshold, added, nw, nr, werr)
    requires calls' == calls + Sent(live + p, threshold) && added == Answers(policy, Sent(live + p, threshold))
    requires written' == written + Taken(policy, Sent(live + p, threshold))
    ensures Calls(policy, calls0, written0, cs + Sent(live + p, threshold), rs + added, calls', written')
    ensures Clean(rs + added) && written' + live' == written0 + live0 + (drawn + p)
    ensures rerr.None? ==> (drawn + p) + Pending(steps') == pending0 && Outcome(steps') == Outcome(steps)
    ensures rerr.Some? ==>
      && drawn + p == pending0 && rerr.value == Outcome(steps) && Request(live', threshold).None?
      && written' == written0 + Concat(cs + Sent(live + p, threshold))
  {
    DrawAccounts(pending0, [], drawn, steps, steps', p, nr, rerr);
    RoundAccounts(written0 + live0, drawn, p, written, live, written', live', threshold, rs, added, nw, nr, werr);
    CallsAppend(policy, calls0, written0, cs, rs, calls, written, live + p, threshold, calls', written', added);
    CleanTakesAll(policy, cs + Sent(live + p, threshold));
  }

  /** The round of ReadFrom's loop whose flush failed, which ends it: its
      input is every byte not handed over before it, and the count
      returned is the bytes read before it plus the flush's count. */
  lemma FailedStep(policy: WritePolicy, threshold: int, written0: seq<byte>, live0: seq<byte>,
                   calls0: seq<seq<byte>>, drawn: seq<byte>, cs: seq<seq<byte>>, rs: seq<Reply>, n: int,
                   written: seq<byte>, live: seq<byte>, calls: seq<seq<byte>>, written': seq<byte>,
                   live': seq<byte>, calls': seq<seq<byte>>, p: seq<byte>, nr: int, added: seq<Reply>,
                   nw: int, werr: Option<Error>)
    requires n == |drawn| && nr == |p| && Clean(rs) && werr.Some?
    requires written + live == written0 + live0 + drawn
    requires Calls(policy, calls0, written0, cs, rs, calls, written)
    requires Accounted(written, written', live + p, live', threshold, added, nw, nr, werr)
    requires Reported(nw, werr, live') == Due(live + p, |live|, |p|, threshold, policy)
    requires calls' == calls + Sent(live + p, threshold) && added == Answers(policy, Sent(live + p, threshold))
    requires written' == written + Taken(policy, Sent(live + p, threshold))
    ensures Calls(policy, calls0, written0, cs + Sent(live + p, threshold), rs + added, calls', written')
    ensures |rs + added| == |cs| + 1 && Clean((rs + added)[..|cs|]) && !CleanReply((rs + added)[|cs|])
      && werr == FlushError((rs + added)[|cs|])
    ensures n + nw <= |drawn + p| && written' <= written0 + live0 + (drawn + p)
    ensures Sent(live + p, threshold) != [] && Concat(cs) + (live + p) == live0 + (drawn + p)
    ensures var d := Due(live + p, |live|, |p|, threshold, policy);
      && |p| <= |drawn + p| && n + nw == |drawn + p| - |p| + d.n && werr == d.err && live' == d.live
  {
    RoundAccounts(written0 + live0, drawn, p, written, live, written', live', threshold, rs, added, nw, nr, werr);
    CallsAppend(policy, calls0, written0, cs, rs, calls, written, live + p, threshold, calls', written', added);
    CleanTakesAll(policy, cs);
    AnswersAt(policy, cs);
    Associate(written0, Concat(cs), live);
    Associate(written0, live0, drawn);
    Cancel(written0, Concat(cs) + live, live0 + drawn);
    Associate(Concat(cs), live, p);
    Associate(live0, drawn, p);
  }

  /** A common prefix cancels. */
  lemma Cancel<T>(a: seq<T>, x: seq<T>, y: seq<T>)
    requires a + x == a + y
    ensures x == y
  {
    assert x == (a + x)[|a|..];
    assert y == (a + y)[|a|..];
  }

  /** NewBatchLineWriter: refuses a threshold that is not positive, and
      otherwise returns an empty writer in front of wc. */
  method NewBatchLineWriter(wc: Sink?, flushThreshold: int) returns (lw: BatchLineWriter?, err: Option<Error>)
    ensures err.Some? <==> flushThreshold <= 0
    ensures err.Some? ==> lw == null && err == Some(InvalidThreshold(flushThreshold))
    ensures err.None? ==>
      && lw != null && fresh(lw) && fresh(lw.buf) && lw.Valid() && lw.Live() == []
      && lw.off == 0 && lw.indexOfFinalNewline == -1
      && lw.wc == wc && lw.flushThreshold == flushThreshold
  {
    if flushThreshold <= 0 {
      return null, Some(InvalidThreshold(flushThreshold));
    }
    lw := new BatchLineWriter(wc, flushThreshold);
    err := None;
  }

  class BatchLineWriter {
    /** The buffer: buf[..length] is the slice's contents, buf.Length its
        capacity, and a zero-length array stands for the nil slice. */
    var buf: array<byte>
    var length: nat
    /** Bytes before off have already been flushed. */
    var off: nat
    const flushThreshold: int
    /** The index of the last newline of the live region, or negative. */
    var indexOfFinalNewline: int
    var wc: Sink?

    ghost predicate Valid()
      reads this, buf
    {
      && off <= length <= buf.Length
      && flushThreshold > 0
      && Tracks(buf[off..length], off, indexOfFinalNewline)
    }

    /** The live region buf[off:len(buf)], the bytes not yet flushed. */
    function Live(): seq<byte>
      reads this, buf
      requires off <= length <= buf.Length
    {
      buf[off..length]
    }

    constructor (wc: Sink?, flushThreshold: int)
      requires flushThreshold > 0
      ensures Valid() && fresh(buf) && buf.Length == 0
      ensures length == 0 && off == 0 && indexOfFinalNewline == -1
      ensures this.wc == wc && this.flushThreshold == flushThreshold
    {
      buf := new byte[0];
      length, off := 0, 0;
      this.flushThreshold := flushThreshold;
      indexOfFinalNewline := -1;
      this.wc := wc;
    }

    /** Reslices the buffer to n more bytes when the capacity allows. */
    method BufferGrowInline(n: nat) returns (r: nat, ok: bool)
      requires off <= length <= buf.Length
      modifies this
      ensures buf == old(buf) && off == old(off) && wc == old(wc)
      ensures indexOfFinalNewline == old(indexOfFinalNewline)
      ensures ok <==> old(length) + n <= buf.Length
      ensures ok ==> r == old(length) && length == old(length) + n
      ensures !ok ==> r == 0 && length == old(length)
    {
      var l := length;
      var lpn := l + n;
      if lpn <= buf.Length {
        length := lpn;
        return l, true;
      }
      return 0, false;
    }

    /** Empties the buffer but keeps its backing array. */
    method BufferReset()
      modifies this
      ensures buf == old(buf) && wc == old(wc)
      ensures length == 0 && off == 0 && indexOfFinalNewline == -1
    {
      length := 0;
      indexOfFinalNewline := -1;
      off := 0;
    }

    /** Makes room for n more bytes after the live region and returns the
        index where they go. The live bytes are kept, possibly moved to
        the front of the same array or of a new one; if they move, the
        cached index moves with them. */
    method BufferGrow(n: nat) returns (r: nat)
      requires Valid()
      modifies this, buf
      ensures wc == old(wc)
      ensures off <= r && r + n == length <= buf.Length
      ensures buf[off..r] == old(Live())
      ensures Tracks(buf[off..r], off, indexOfFinalNewline)
      ensures indexOfFinalNewline >= 0 ==> indexOfFinalNewline - off == old(indexOfFinalNewline) - old(off)
      ensures off == old(off) || off == 0
      ensures buf == old(buf) || fresh(buf)
    {
      var m := length - off;
      if m == 0 && off != 0 {
        // Reset the buffer to make an allocation less likely.
        BufferReset();
      }
      var i, ok := BufferGrowInline(n);
      if ok {
        return i;
      }
      if buf.Length == 0 && n <= SmallBufferSize {
        buf := new byte[SmallBufferSize];
        length := n;
        return 0;
      }
      r := Relocate(n);
    }

    /** The rest of bufferGrow, once reslicing and a first small
        allocation are ruled out: slide the live bytes to the front when
        that leaves at least half the capacity free, or copy them to the
        front of an array of twice the capacity plus n. */
    method Relocate(n: nat) returns (r: nat)
      requires Valid()
      modifies this, buf
      ensures wc == old(wc)
      ensures off == 0 && r + n == length <= buf.Length
      ensures buf[..r] == old(Live())
      ensures Tracks(buf[..r], 0, indexOfFinalNewline)
      ensures indexOfFinalNewline >= 0 ==> indexOfFinalNewline == old(indexOfFinalNewline) - old(off)
      ensures buf == old(buf) || fresh(buf)
    {
      var m := length - off;
      var mpn := m + n;
      var c := buf.Length;
      if mpn <= c / 2 {
        // Slide the live bytes down rather than allocate.
        SlideDown(buf, off, length);
      } else {
        var grown := new byte[2 * c + n];
        CopyInto(grown, 0, buf[off..length]);
        buf := grown;
      }
      indexOfFinalNewline := indexOfFinalNewline - off;
      off := 0;
      length := mpn;
      return m;
    }

    /** Writes buf[off:index] to the sink: the live region up to and
        including its last newline. leno is the live length before the
        caller added its lenp new bytes. */
    method Flush(leno: nat, lenp: nat, index: nat, ghost whole: seq<byte>, ghost sent: seq<byte>)
        returns (n: int, err: Option<Error>)
      requires Valid() && wc != null
      requires indexOfFinalNewline >= 0 && index == indexOfFinalNewline + 1
      requires leno <= length - off
      requires whole == Live() && sent == whole[..index - off]
      modifies this, wc
      ensures Valid() && wc == old(wc) && buf == old(buf)
      ensures wc.policy == old(wc.policy) && wc.closeErr == old(wc.closeErr) && wc.closes == old(wc.closes)
      ensures wc.calls == old(wc.calls) + [sent]
      ensures wc.replies == old(wc.replies) + [Respond(wc.policy, |sent|)]
      ensures wc.written == old(wc.written) + Accepted(sent, wc.LastReply().count)
      ensures Reported(n, err, Live()) == Flushed(whole, leno, lenp, wc.LastReply())
      ensures err.None? ==> wc.written + Live() == old(wc.written) + whole
    {
      ArraySub(buf, off, length, whole, 0, index - off);
      assert buf[off..index] == sent by {
        assert whole[..index - off] == whole[0..index - off];
      }
      var nw, werr := wc.Write(buf[off..index]);
      assert wc.LastReply() == Reply(nw, werr);
      ghost var written := wc.written;
      assert written == old(wc.written) + Accepted(sent, nw);
      n, err := Settle(leno, lenp, index, nw, werr, whole);
      assert wc.written == written;
      CleanFlushConserves(whole, leno, lenp, sent, Reply(nw, werr), old(wc.written));
    }

    /** The second half of flush: given the sink's answer to the write of
        buf[off:index], advance past what it took or keep what it did not,
        and compute flush's return values. */
    method Settle(leno: nat, lenp: nat, index: nat, nw: int, werr: Option<Error>, ghost whole: seq<byte>)
        returns (n: int, err: Option<Error>)
      requires Valid() && whole == Live()
      requires indexOfFinalNewline >= 0 && index == indexOfFinalNewline + 1
      requires leno <= |whole| && nw <= index - off
      requires werr.None? && nw >= 0 ==> nw == index - off
      modifies this
      ensures Valid() && wc == old(wc) && buf == old(buf)
      ensures Reported(n, err, Live()) == Flushed(whole, leno, lenp, Reply(nw, werr))
    {
      if nw < 0 {
        return nw, Some(InvalidWrite);
      }
      ghost var start, end := off, length;
      if werr.None? {
        // Everything went out: advance past it.
        AfterLast(whole, nw);
        off := off + nw;
        indexOfFinalNewline := -1;
        ArraySub(buf, start, end, whole, nw, |whole|);
        assert whole[nw..] == whole[nw..|whole|];
        assert Flushed(whole, leno, lenp, Reply(nw, werr)) == Reported(lenp, None, buf[off..length]);
        return lenp, None;
      }
      // nb is the number of new bytes the sink took.
      var nb := nw - leno;
      if nb >= 0 {
        BufferReset();
        return nb, werr;
      }
      // Keep what was buffered before and not taken; drop the new bytes.
      Retain(nw, leno, whole);
      return 0, werr;
    }

    /** flush after a short write that did not reach the new bytes: the
        live region becomes the old bytes the sink did not take, and the
        cached index is found again by a scan. */
    method Retain(nw: nat, leno: nat, ghost whole: seq<byte>)
      requires Valid() && whole == Live() && nw <= leno <= |whole|
      modifies this
      ensures Valid() && wc == old(wc) && buf == old(buf)
      ensures Live() == whole[nw..leno]
    {
      var nb := nw - leno;
      var start := off + nw;
      var end := start - nb;
      ArraySub(buf, off, length, whole, nw, leno);
      var live := buf[start..end];
      var index := LastIndexByte(live, NL);
      if index != -1 {
        index := index + start;
      }
      assert Tracks(live, start, index);
      off, length, indexOfFinalNewline := start, end, index;
    }

    /** The first half of Write, `lw.buf = append(lw.buf, p...)`: grows
        the buffer, copies p after the live region and moves the cached
        index to p's last newline if it has one. */
    method Append(p: seq<byte>)
      requires Valid()
      modifies this, buf
      ensures Valid() && wc == old(wc) && (buf == old(buf) || fresh(buf))
      ensures Live() == old(Live()) + p
    {
      var m, ok := BufferGrowInline(|p|);
      if !ok {
        m := BufferGrow(|p|);
      }
      Store(m, p);
    }

    /** copy(lw.buf[m:], p), then the index update: p lands right after
        the live region buf[off:m], in the room grown for it. */
    method Store(m: nat, p: seq<byte>)
      requires off <= m && m + |p| == length <= buf.Length && flushThreshold > 0
      requires Tracks(buf[off..m], off, indexOfFinalNewline)
      modifies this, buf
      ensures Valid() && wc == old(wc) && buf == old(buf) && off == old(off)
      ensures Live() == old(buf[off..m]) + p
    {
      ghost var before := buf[off..m];
      CopyInto(buf, m, p);
      assert buf[off..m] == before;
      Mark(m, before, p);
    }

    /** The newline logic that follows each append (batchLineWriter.go
        and readerFrom.go alike): the new bytes buf[m:len(buf)] follow
        the live region buf[off:m], and the cached index moves to their
        last newline when they have one. */
    method Mark(m: nat, ghost before: seq<byte>, ghost p: seq<byte>)
      requires off <= m <= length <= buf.Length && flushThreshold > 0
      requires buf[off..m] == before && buf[m..length] == p
      requires Tracks(before, off, indexOfFinalNewline)
      modifies this
      ensures Valid() && wc == old(wc) && buf == old(buf) && off == old(off) && length == old(length)
      ensures Live() == before + p
    {
      ArrayJoin(buf, off, m, length, before, p);
      TracksAppend(before, p, off, indexOfFinalNewline);
      var finalIndex := LastIndexByte(buf[m..length], NL);
      if finalIndex >= 0 {
        indexOfFinalNewline := m + finalIndex;
      }
    }

    /** Appends p, then flushes up to the last newline once the live
        region reaches the threshold. */
    method Write(p: seq<byte>) returns (n: int, err: Option<Error>)
      requires Valid()
      requires wc == null ==> Request(Live() + p, flushThreshold).None?
      modifies this, buf, wc
      ensures Valid() && wc == old(wc) && (buf == old(buf) || fresh(buf))
      ensures Request(old(Live()) + p, flushThreshold).None? ==>
        && n == |p| && err.None? && Live() == old(Live()) + p
        && (wc != null ==> unchanged(wc))
      ensures Request(old(Live()) + p, flushThreshold).Some? ==>
        var sent := Request(old(Live()) + p, flushThreshold).value;
        && wc != null
        && wc.policy == old(wc.policy) && wc.closeErr == old(wc.closeErr) && wc.closes == old(wc.closes)
        && wc.calls == old(wc.calls) + [sent]
        && wc.replies == old(wc.replies) + [Respond(wc.policy, |sent|)]
        && wc.written == old(wc.written) + Accepted(sent, wc.LastReply().count)
        && Reported(n, err, Live()) == Flushed(old(Live()) + p, |old(Live())|, |p|, wc.LastReply())
      // an error-free Write loses no byte and hands none over twice
      ensures err.None? && wc != null ==> wc.written + Live() == old(wc.written) + (old(Live()) + p)
    {
      var leno := length - off;
      Append(p);
      TracksNone(Live(), off, indexOfFinalNewline);
      if length - off < flushThreshold || indexOfFinalNewline < off {
        // Nothing to flush yet.
        return |p|, None;
      }
      ghost var whole := Live();
      assert whole == old(Live()) + p;
      ghost var sent := Request(whole, flushThreshold).value;
      assert whole[..indexOfFinalNewline + 1 - off] == sent;
      n, err := Flush(leno, |p|, indexOfFinalNewline + 1, whole, sent);
    }

    /** Flushes the whole live region, terminated or not, then closes the
        sink. A write error is returned in preference to the close
        error. */
    method Close() returns (err: Option<Error>)
      requires Valid() && wc != null
      modifies this, wc
      ensures Valid() && wc == null && buf == old(buf)
      ensures length == 0 && off == 0 && indexOfFinalNewline == -1
      ensures var s := old(wc);
        && s.closes == old(s.closes) + 1
        && s.policy == old(s.policy) && s.closeErr == old(s.closeErr)
        && (old(Live()) == [] ==>
              s.calls == old(s.calls) && s.replies == old(s.replies) && s.written == old(s.written)
              && err == s.closeErr)
        && (old(Live()) != [] ==>
              && s.calls == old(s.calls) + [old(Live())]
              && s.replies == old(s.replies) + [Respond(s.policy, |old(Live())|)]
              && s.written == old(s.written) + (var c := s.LastReply().count; if c >= 0 then old(Live())[..c] else [])
              && err == (if s.LastReply().err.Some? then s.LastReply().err else s.closeErr))
        // without an error, the sink ends up holding the whole live region
        && (err.None? && !s.policy.BadCount? ==> s.written == old(s.written) + old(Live()))
    {
      var sink := wc;
      if length - off > 0 {
        var nw, werr := sink.Write(buf[off..length]);
        if werr.Some? {
          BufferReset();
          var ignored := sink.Close();
          wc := null;
          return werr;
        }
      }
      BufferReset();
      err := sink.Close();
      wc := null;
    }

    /** Reads r until io.EOF or an error, appending each chunk to the
        buffer and flushing like Write. The count returned is that of
        the bytes read; the unterminated tail stays buffered. `cs` are
        the Write calls made on the sink, `rs` their replies; after a
        failed flush, `done` are the calls before the failed one, `last`
        the live region before the last read and `chunk` the bytes that
        read appended. */
    method ReadFrom(r: Reader) returns (n: int, err: Option<Error>,
                                        ghost drawn: seq<byte>, ghost cs: seq<seq<byte>>, ghost rs: seq<Reply>,
                                        ghost failed: bool, ghost done: seq<seq<byte>>,
                                        ghost last: seq<byte>, ghost chunk: seq<byte>)
      requires Valid() && wc != null
      modifies this, buf, wc, r
      ensures Valid() && wc == old(wc) && (buf == old(buf) || fresh(buf))
      ensures wc.policy == old(wc.policy) && wc.closeErr == old(wc.closeErr) && wc.closes == old(wc.closes)
      ensures r.delivered == old(r.delivered) + drawn && wc.replies == old(wc.replies) + rs
      // the sink is only ever handed newline-terminated bytes, and answers by its policy
      ensures wc.calls == old(wc.calls) + cs && rs == Answers(wc.policy, cs)
      ensures forall i :: 0 <= i < |cs| ==> EndsInNewline(cs[i])
      ensures wc.written == old(wc.written) + Taken(wc.policy, cs)
      ensures !failed ==>
        && Clean(rs) && n == |drawn| && wc.written == old(wc.written) + Concat(cs)
        && wc.written + Live() == old(wc.written) + old(Live()) + drawn
        && ((err == Some(InvalidRead) && drawn + Pending(r.steps) == old(Pending(r.steps)))
            || (&& drawn == old(Pending(r.steps))
                && err == (if old(Outcome(r.steps)) == EOF then None else Some(old(Outcome(r.steps))))
                && Request(Live(), flushThreshold).None?))
      // with a reader that never answers a negative count, only the script's end stops a clean copy
      ensures !failed && Counted(old(r.steps)) ==>
        && drawn == old(Pending(r.steps))
        && err == (if old(Outcome(r.steps)) == EOF then None else Some(old(Outcome(r.steps))))
      ensures failed ==>
        && |rs| == |done| + 1 && Clean(rs[..|done|]) && !CleanReply(rs[|done|])
        && err == FlushError(rs[|done|])
        && n <= |drawn| && wc.written <= old(wc.written) + old(Live()) + drawn
      // a failed flush: its input is every byte not handed over before,
      // and the count is the bytes read before the last read plus flush's count
      ensures failed ==>
        && Sent(last + chunk, flushThreshold) != [] && cs == done + Sent(last + chunk, flushThreshold)
        && Concat(done) + (last + chunk) == old(Live()) + drawn
        && var d := Due(last + chunk, |last|, |chunk|, flushThreshold, wc.policy);
        && |chunk| <= |drawn| && n == |drawn| - |chunk| + d.n && err == d.err && Live() == d.live
    {
      n, drawn, cs, rs, failed, done, last, chunk := 0, [], [], [], false, [], [], [];
      ghost var live0, written0, calls0, replies0 := Live(), wc.written, wc.calls, wc.replies;
      ghost var pending0, delivered0, outcome0 := Pending(r.steps), r.delivered, Outcome(r.steps);
      ghost var counted0 := Counted(r.steps);
      while true
        invariant Valid() && wc == old(wc) && (buf == old(buf) || fresh(buf))
        invariant wc.policy == old(wc.policy) && wc.closeErr == old(wc.closeErr) && wc.closes == old(wc.closes)
        invariant r.delivered == delivered0 + drawn
        invariant drawn + Pending(r.steps) == pending0
        invariant Outcome(r.steps) == outcome0 && (counted0 ==> Counted(r.steps))
        invariant n == |drawn|
        invariant wc.replies == replies0 + rs && Clean(rs)
        invariant wc.written + Live() == written0 + live0 + drawn
        invariant Calls(wc.policy, calls0, written0, cs, rs, wc.calls, wc.written)
        decreases Size(r.steps)
      {
        ghost var steps, written, live, calls := r.steps, wc.written, Live(), wc.calls;
        var nr, rerr, nw, werr, p, added := Round(r);
        if nr < 0 {
          assert p == [] && [] + Pending(r.steps) == Pending(r.steps) && rs + [] == rs;
          CleanTakesAll(wc.policy, cs);
          return n, Some(InvalidRead), drawn, cs, rs, false, [], [], [];
        }
        ghost var sent := Sent(live + p, flushThreshold);
        Associate(delivered0, drawn, p);
        Associate(replies0, rs, added);
        if werr.Some? {
          FailedStep(wc.policy, flushThreshold, written0, live0, calls0, drawn, cs, rs, n,
                     written, live, calls, wc.written, Live(), wc.calls, p, nr, added, nw, werr);
          return n + nw, werr, drawn + p, cs + sent, rs + added, true, cs, live, p;
        }
        CleanStep(wc.policy, flushThreshold, written0, live0, calls0, pending0, drawn, cs, rs,
                  steps, written, live, calls, r.steps, wc.written, Live(), wc.calls, p, nr, rerr, added, nw, werr);
        drawn, cs, rs := drawn + p, cs + sent, rs + added;
        n := n + nr;
        if rerr.Some? {
          // io.EOF itself ends the copy cleanly; any other error is returned.
          err := if rerr == Some(EOF) then None else rerr;
          return;
        }
      }
    }

    /** One round of ReadFrom's loop: read a chunk after the live region,
        then flush up to its last newline if the threshold is reached.
        `p` is the chunk read, `added` the sink's replies (none or one). */
    method Round(r: Reader) returns (nr: int, rerr: Option<Error>, nw: int, werr: Option<Error>,
                                     ghost p: seq<byte>, ghost added: seq<Reply>)
      requires Valid() && wc != null
      modifies this, buf, wc, r
      ensures Valid() && wc == old(wc) && (buf == old(buf) || fresh(buf))
      ensures wc.policy == old(wc.policy) && wc.closeErr == old(wc.closeErr) && wc.closes == old(wc.closes)
      ensures Answered(old(r.steps), r.steps, p, nr, rerr) && r.delivered == old(r.delivered) + p
      ensures wc.replies == old(wc.replies) + added
      ensures Counted(old(r.steps)) ==> nr >= 0 && Counted(r.steps)
      ensures nr < 0 ==> && added == [] && werr.None? && wc.calls == old(wc.calls)
                          && wc.written == old(wc.written) && Live() == old(Live())
      ensures nr >= 0 ==>
        && wc.calls == old(wc.calls) + Sent(old(Live()) + p, flushThreshold)
        && added == Answers(wc.policy, Sent(old(Live()) + p, flushThreshold))
        && wc.written == old(wc.written) + Taken(wc.policy, Sent(old(Live()) + p, flushThreshold))
        && Reported(nw, werr, Live()) == Due(old(Live()) + p, |old(Live())|, |p|, flushThreshold, wc.policy)
      ensures nr >= 0 ==> Accounted(old(wc.written), wc.written, old(Live()) + p, Live(), flushThreshold, added, nw, nr, werr)
    {
      var leno := length - off;
      ghost var before := Live();
      nr, rerr, p := Fill(r);
      if nr < 0 {
        assert wc.replies == old(wc.replies) + [] && Live() == before + [];
        return nr, rerr, 0, None, p, [];
      }
      nw, werr, added := FlushIfDue(leno, nr, before, p);
    }

    /** The read half of ReadFrom's loop: grow room for at least minRead
        bytes after the live region and read into it. */
    method Fill(r: Reader) returns (nr: int, rerr: Option<Error>, ghost p: seq<byte>)
      requires Valid()
      modifies this, buf, r
      ensures Valid() && wc == old(wc) && (buf == old(buf) || fresh(buf))
      ensures Answered(old(r.steps), r.steps, p, nr, rerr)
      ensures Live() == old(Live()) + p && r.delivered == old(r.delivered) + p
      ensures Counted(old(r.steps)) ==> nr >= 0 && Counted(r.steps)
    {
      ghost var before := Live();
      var m := BufferGrow(MinRead);
      length := m;
      assert Live() == before;
      nr, rerr, p := ReadChunk(r);
    }

    /** The flush half of ReadFrom's loop: once the live region, the old
        bytes `before` followed by the bytes `p` just read, reaches the
        threshold and holds a newline, flush up to its last newline. */
    method FlushIfDue(leno: nat, lenp: nat, ghost before: seq<byte>, ghost p: seq<byte>)
        returns (nw: int, werr: Option<Error>, ghost added: seq<Reply>)
      requires Valid() && wc != null
      requires Live() == before + p && leno == |before| && lenp == |p|
      modifies this, wc
      ensures Valid() && wc == old(wc) && buf == old(buf)
      ensures wc.policy == old(wc.policy) && wc.closeErr == old(wc.closeErr) && wc.closes == old(wc.closes)
      ensures wc.replies == old(wc.replies) + added
      // the calls made and their outcome, as the flush logic prescribes
      ensures wc.calls == old(wc.calls) + Sent(before + p, flushThreshold)
      ensures added == Answers(wc.policy, Sent(before + p, flushThreshold))
      ensures wc.written == old(wc.written) + Taken(wc.policy, Sent(before + p, flushThreshold))
      ensures Reported(nw, werr, Live()) == Due(before + p, leno, lenp, flushThreshold, wc.policy)
      ensures Accounted(old(wc.written), wc.written, before + p, Live(), flushThreshold, added, nw, lenp, werr)
    {
      ghost var whole := Live();
      if length - off < flushThreshold || indexOfFinalNewline < 0 {
        LastIndexByteFinds(whole, NL);
        UnflushedAccounts(wc.written, whole, flushThreshold, lenp);
        assert wc.replies == old(wc.replies) + [] && wc.calls == old(wc.calls) + [];
        assert wc.written == old(wc.written) + [];
        return 0, None, [];
      }
      ghost var sent := Request(whole, flushThreshold).value;
      assert whole[..indexOfFinalNewline + 1 - off] == sent;
      ghost var written := wc.written;
      nw, werr := Flush(leno, lenp, indexOfFinalNewline + 1, whole, sent);
      FlushAccounts(whole, leno, lenp, flushThreshold, sent, wc.LastReply(), written, wc.written, nw, werr, Live());
      OneCall(wc.policy, sent);
      added := [wc.LastReply()];
    }

    /** The read of ReadFrom's loop, once room has been grown: read into
        buf[length:cap(buf)] and move the cached index to the last newline
        of what arrived. */
    method ReadChunk(r: Reader) returns (nr: int, rerr: Option<Error>, ghost p: seq<byte>)
      requires Valid() && length < buf.Length
      modifies this, buf, r
      ensures Valid() && wc == old(wc) && buf == old(buf)
      ensures Answered(old(r.steps), r.steps, p, nr, rerr)
      ensures Live() == old(Live()) + p && r.delivered == old(r.delivered) + p
      ensures Counted(old(r.steps)) ==> nr >= 0 && Counted(r.steps)
    {
      var m := length;
      ghost var before := buf[off..m];
      nr, rerr := r.Read(buf, m);
      if nr < 0 {
        assert buf[off..m] == before + [];
        return nr, rerr, [];
      }
      p := buf[m..m + nr];
      assert Answered(old(r.steps), r.steps, p, nr, rerr);
      assert r.delivered == old(r.delivered) + p;
      length := m + nr;
      assert buf[off..m] == before;
      Mark(m, before, p);
    }
  }
}
