/** Models of the Go `io` collaborators: errors, a byte sink
    (io.WriteCloser) and a byte source (io.Reader). They stand for
    whatever the callers plug in; their bodies follow the sinks and
    readers the repository's tests use. */
module Io {
  import opened Bytes

  datatype Option<T> = None | Some(value: T)

  /** The error values that flow through the core. */
  datatype Error =
    | EOF                              // io.EOF
    | UnexpectedEOF                    // io.ErrUnexpectedEOF
    | ShortWrite                       // io.ErrShortWrite
    | InvalidWrite                     // "invalid write result"
    | InvalidRead                      // "invalid read result"
    | InvalidThreshold(threshold: int) // NewBatchLineWriter's configuration error
    | Wrapped(inner: Error)            // an error value whose Unwrap yields inner
    | Failure(message: string)         // any other error value

  /** errors.Is(e, io.EOF): e is io.EOF, or unwraps to it. */
  predicate IsEOF(e: Error)
  {
    match e
    case EOF => true
    case Wrapped(inner) => IsEOF(inner)
    case _ => false
  }

  /** The (count, error) pair one call of Write or Read answers. */
  datatype Reply = Reply(count: int, err: Option<Error>)

  /** How a sink answers Write calls. */
  datatype WritePolicy =
    | AcceptAll          // takes every byte (testBuffer, io.Discard)
    | ShortAt(max: nat)  // takes at most max bytes, io.ErrShortWrite beyond (ShortWriter)
    | FailAll(e: Error)  // takes nothing and fails (errOnWrite)
    | BadCount           // breaks the io.Writer contract with a negative count

  /** The answer a sink with `policy` gives to a Write of `n` bytes.
      Apart from BadCount it keeps the io.Writer contract: the count lies
      in [0, n], and a short count comes with an error. */
  function Respond(policy: WritePolicy, n: nat): (r: Reply)
    ensures r.count < 0 <==> policy.BadCount?
    ensures r.count >= 0 ==> r.count <= n
    ensures r.count >= 0 && r.count < n ==> r.err.Some?
    ensures policy.AcceptAll? ==> r == Reply(n, None)
  {
    match policy
    case AcceptAll => Reply(n, None)
    case ShortAt(max) => if n > max then Reply(max, Some(ShortWrite)) else Reply(n, None)
    case FailAll(e) => Reply(0, Some(e))
    case BadCount => Reply(-1, None)
  }

  /** The bytes of `data` a sink took when it answered `count`: none for
      a negative count. */
  function Accepted(data: seq<byte>, count: int): seq<byte>
    requires count <= |data|
  {
    if count >= 0 then data[..count] else []
  }

  /** The replies a sink with `policy` gives to one Write call per line. */
  function Answers(policy: WritePolicy, lines: seq<seq<byte>>): seq<Reply>
  {
    if lines == [] then []
    else Answers(policy, lines[..|lines| - 1]) + [Respond(policy, |lines[|lines| - 1]|)]
  }

  /** The bytes such a sink takes from those calls. */
  function Taken(policy: WritePolicy, lines: seq<seq<byte>>): seq<byte>
  {
    if lines == [] then []
    else
      var last := lines[|lines| - 1];
      Taken(policy, lines[..|lines| - 1]) + Accepted(last, Respond(policy, |last|).count)
  }

  /** The replies to calls `a` and then `b` are those to `a`, then those to `b`. */
  lemma {:induction false} AnswersAppend(policy: WritePolicy, a: seq<seq<byte>>, b: seq<seq<byte>>)
    ensures Answers(policy, a + b) == Answers(policy, a) + Answers(policy, b)
  {
    if b == [] {
      assert a + b == a;
    } else {
      var b' := b[..|b| - 1];
      assert (a + b)[..|a + b| - 1] == a + b';
      AnswersAppend(policy, a, b');
    }
  }

  /** The bytes taken from calls `a` and then `b` are those taken from
      `a`, then those taken from `b`. */
  lemma {:induction false} TakenAppend(policy: WritePolicy, a: seq<seq<byte>>, b: seq<seq<byte>>)
    ensures Taken(policy, a + b) == Taken(policy, a) + Taken(policy, b)
  {
    if b == [] {
      assert a + b == a;
    } else {
      var b', last := b[..|b| - 1], b[|b| - 1];
      var x := Accepted(last, Respond(policy, |last|).count);
      assert (a + b)[..|a + b| - 1] == a + b' && (a + b)[|a + b| - 1] == last;
      TakenAppend(policy, a, b');
      Associate(Taken(policy, a), Taken(policy, b'), x);
    }
  }

  /** The replies are one per call, each the policy's answer to it. */
  lemma {:induction false} AnswersAt(policy: WritePolicy, cs: seq<seq<byte>>)
    ensures |Answers(policy, cs)| == |cs|
    ensures forall i :: 0 <= i < |cs| ==> Answers(policy, cs)[i] == Respond(policy, |cs[i]|)
  {
    if cs != [] {
      AnswersAt(policy, cs[..|cs| - 1]);
    }
  }

  /** Answers is exactly the call-by-call account of a sink's replies. */
  lemma AnswersPointwise(policy: WritePolicy, cs: seq<seq<byte>>, rs: seq<Reply>)
    ensures rs == Answers(policy, cs) <==>
      |rs| == |cs| && forall i :: 0 <= i < |cs| ==> rs[i] == Respond(policy, |cs[i]|)
  {
    AnswersAt(policy, cs);
  }

  /** A byte sink with close semantics (io.WriteCloser). The ghost
      fields record what reached it: the accepted bytes in order, the
      argument of every Write call, every reply, and the Close calls. */
  class Sink {
    var policy: WritePolicy
    var closeErr: Option<Error>
    ghost var written: seq<byte>
    ghost var calls: seq<seq<byte>>
    ghost var replies: seq<Reply>
    ghost var closes: nat

    constructor (policy: WritePolicy, closeErr: Option<Error>)
      ensures this.policy == policy && this.closeErr == closeErr
      ensures written == [] && calls == [] && replies == [] && closes == 0
    {
      this.policy := policy;
      this.closeErr := closeErr;
      written, calls, replies, closes := [], [], [], 0;
    }

    /** The reply to the most recent Write call. */
    ghost function LastReply(): Reply
      reads this
      requires replies != []
    {
      replies[|replies| - 1]
    }

    method Write(data: seq<byte>) returns (nw: int, err: Option<Error>)
      modifies this
      ensures policy == old(policy) && closeErr == old(closeErr) && closes == old(closes)
      ensures Reply(nw, err) == Respond(policy, |data|)
      ensures calls == old(calls) + [data] && replies == old(replies) + [Reply(nw, err)]
      ensures written == old(written) + Accepted(data, nw)
    {
      var r := Respond(policy, |data|);
      nw, err := r.count, r.err;
      calls := calls + [data];
      replies := replies + [r];
      written := written + Accepted(data, nw);
    }

    method Close() returns (err: Option<Error>)
      modifies this
      ensures err == closeErr && closes == old(closes) + 1
      ensures policy == old(policy) && closeErr == old(closeErr)
      ensures written == old(written) && calls == old(calls) && replies == old(replies)
    {
      closes := closes + 1;
      err := closeErr;
    }
  }

  /** One scripted answer of a reader: some bytes with an optional error,
      or a broken negative count. */
  datatype Step = Chunk(data: seq<byte>, err: Option<Error>) | Negative

  /** A measure that every consuming read decreases. */
  function Size(steps: seq<Step>): nat
  {
    if steps == [] then 0
    else Size(steps[1..]) + 1 + (match steps[0] case Chunk(d, _) => |d| case Negative => 0)
  }

  /** The bytes a reader that answers `steps` yields until its first
      error (negative counts carry no bytes). */
  function Pending(steps: seq<Step>): seq<byte>
  {
    if steps == [] then []
    else match steps[0]
      case Negative => Pending(steps[1..])
      case Chunk(d, e) => if e.Some? then d else d + Pending(steps[1..])
  }

  /** The error that ends the bytes of `steps`: the first scripted
      error, or io.EOF once the script is exhausted. */
  function Outcome(steps: seq<Step>): Error
  {
    if steps == [] then EOF
    else match steps[0]
      case Negative => Outcome(steps[1..])
      case Chunk(d, e) => if e.Some? then e.value else Outcome(steps[1..])
  }

  /** A script that never answers a negative count. */
  predicate Counted(steps: seq<Step>)
  {
    steps == [] || (steps[0].Chunk? && Counted(steps[1..]))
  }

  /** One read of a reader whose script was `steps` answered `n` and
      `err`, handing over `chunk` and leaving the script `steps'`: the
      script shrinks unless it was already exhausted, and the bytes and
      final error of the old script are the chunk followed by those of
      the new one. A negative count hands over nothing. */
  predicate Answered(steps: seq<Step>, steps': seq<Step>, chunk: seq<byte>, n: int, err: Option<Error>)
  {
    && (Size(steps') < Size(steps) || err == Some(EOF))
    && (n < 0 ==> err.None? && chunk == [])
    && (n >= 0 ==> |chunk| == n)
    && (err.None? ==> Pending(steps) == chunk + Pending(steps') && Outcome(steps') == Outcome(steps))
    && (err.Some? ==> Pending(steps) == chunk && err.value == Outcome(steps))
  }

  /** Handing out the whole first chunk leaves the rest of the script;
      the chunk's error, if it has one, ends the bytes. */
  lemma FullChunk(steps: seq<Step>)
    requires steps != [] && steps[0].Chunk?
    ensures Size(steps[1..]) < Size(steps)
    ensures Answered(steps, steps[1..], steps[0].data, |steps[0].data|, steps[0].err)
  {
  }

  /** Handing out the first k bytes of the first chunk leaves a script
      whose bytes are the rest, with the same final error. */
  lemma {:induction false} PartialChunk(steps: seq<Step>, k: nat)
    requires steps != [] && steps[0].Chunk? && 0 < k < |steps[0].data|
    ensures var rest := [Chunk(steps[0].data[k..], steps[0].err)] + steps[1..];
      && Size(rest) < Size(steps)
      && Pending(steps) == steps[0].data[..k] + Pending(rest)
      && Outcome(rest) == Outcome(steps)
  {
    var data, e := steps[0].data, steps[0].err;
    var rest := [Chunk(data[k..], e)] + steps[1..];
    assert rest[0] == Chunk(data[k..], e) && rest[1..] == steps[1..];
    assert data == data[..k] + data[k..];
    Associate(data[..k], data[k..], Pending(steps[1..]));
  }

  /** A scripted byte source (io.Reader), like the tests' testReader:
      each read answers the next step; a chunk larger than the caller's
      room is handed out in pieces; an exhausted script answers io.EOF. */
  class Reader {
    var steps: seq<Step>
    ghost var delivered: seq<byte>
    ghost var lastCount: int
    ghost var lastErr: Option<Error>

    constructor (steps: seq<Step>)
      ensures this.steps == steps && delivered == []
    {
      this.steps := steps;
      delivered, lastCount, lastErr := [], 0, None;
    }

    /** Reads into p[from..p.Length], the slice the caller passes. */
    method Read(p: array<byte>, from: nat) returns (n: int, err: Option<Error>)
      requires from <= p.Length
      modifies this, p
      ensures lastCount == n && lastErr == err
      ensures n == -1 || 0 <= n <= p.Length - from
      ensures n < 0 ==> err.None? && p[..] == old(p[..]) && delivered == old(delivered)
      ensures n >= 0 ==> p[..from] == old(p[..from]) && p[from + n..] == old(p[from + n..])
      ensures n >= 0 ==> delivered == old(delivered) + p[from..from + n]
      // the answer follows the script
      ensures from == p.Length ==> n == 0 && err.None? && steps == old(steps)
      ensures from < p.Length ==> Answered(old(steps), steps, if n >= 0 then p[from..from + n] else [], n, err)
      ensures Counted(old(steps)) ==> n >= 0 && Counted(steps)
    {
      if from == p.Length {
        n, err := 0, None;
      } else if steps == [] {
        n, err := 0, Some(EOF);
      } else if steps[0].Negative? {
        n, err := -1, None;
        steps := steps[1..];
      } else {
        n, err := Serve(p, from);
      }
      lastCount, lastErr := n, err;
    }

    /** Read's answer from a chunk: as many of its bytes as fit, and its
        error only once all of them have been handed out. */
    method Serve(p: array<byte>, from: nat) returns (n: int, err: Option<Error>)
      requires from < p.Length && steps != [] && steps[0].Chunk?
      modifies this, p
      ensures lastCount == old(lastCount) && lastErr == old(lastErr)
      ensures 0 <= n <= p.Length - from
      ensures p[..from] == old(p[..from]) && p[from + n..] == old(p[from + n..])
      ensures delivered == old(delivered) + p[from..from + n]
      ensures Answered(old(steps), steps, p[from..from + n], n, err)
      ensures Counted(old(steps)) ==> Counted(steps)
    {
      var data, e := steps[0].data, steps[0].err;
      var room := p.Length - from;
      var k := if |data| <= room then |data| else room;
      CopyInto(p, from, data[..k]);
      delivered := delivered + data[..k];
      if k < |data| {
        PartialChunk(steps, k);
        ghost var rest := steps[1..];
        steps := [Chunk(data[k..], e)] + steps[1..];
        n, err := k, None;
        assert steps[1..] == rest;
      } else {
        assert data[..k] == data;
        FullChunk(steps);
        steps := steps[1..];
        n, err := k, e;
      }
    }
  }
}
