/** LineTerminatedReader: an io.Reader in front of a source io.Reader
    that makes the stream it yields end in a newline, adding one when the
    source's final byte is not a newline. */
module LineTerminated {
  import opened Bytes
  import opened Io

  /** The stream `s` with a newline added unless it already ends in one;
      the empty stream becomes "\n". */
  function Terminate(s: seq<byte>): (r: seq<byte>)
  {
    if EndsInNewline(s) then s else s + [NL]
  }

  /** Terminate adds at most the one newline: the result ends in a
      newline, starts with `s`, and equals `s` exactly when `s` already
      ended in one. */
  lemma TerminateProperties(s: seq<byte>)
    ensures EndsInNewline(Terminate(s))
    ensures Terminate(s)[..|s|] == s && |s| <= |Terminate(s)| <= |s| + 1
    ensures Terminate(s) == s <==> EndsInNewline(s)
  {
    if !EndsInNewline(s) {
      assert (s + [NL])[..|s|] == s;
    }
  }

  /** An empty source yields the stream "\n". */
  lemma EmptySourceYieldsNewline()
    ensures Terminate([]) == [NL]
  {
  }

  /** Terminating twice is terminating once. */
  lemma TerminateIdempotent(s: seq<byte>)
    ensures Terminate(Terminate(s)) == Terminate(s)
  {
    TerminateProperties(s);
  }

  /** What the caller has been handed once the first error arrives: the
      source's bytes, with the final newline added when that error is
      io.EOF. */
  function Delivered(source: seq<byte>, outcome: Error): seq<byte>
  {
    if IsEOF(outcome) then Terminate(source) else source
  }

  class LineTerminatedReader {
    var R: Reader
    var savedErr: Option<Error>
    var wasFinalByteNewline: bool
    /** The bytes read from R, and the bytes handed to callers. */
    ghost var seen: seq<byte>
    ghost var emitted: seq<byte>
    /** Whether an error has been returned to a caller. */
    ghost var ended: bool
    /** The bytes R held at construction before its first error, and
        that error. */
    ghost var source: seq<byte>
    ghost var outcome: Error

    /** wasFinalByteNewline tracks the last byte read, and until an
        error is returned the caller has been handed exactly the bytes
        read, which are the start of the source; a saved error is the
        source's io.EOF after all its bytes, whose last is no newline. */
    ghost predicate Valid()
      reads this, R
    {
      && wasFinalByteNewline == EndsInNewline(seen)
      && (!ended ==> emitted == seen)
      && (!ended && savedErr.None? ==>
            seen + Pending(R.steps) == source && Outcome(R.steps) == outcome)
      && (!ended && savedErr.Some? ==>
            seen == source && savedErr.value == outcome && IsEOF(outcome) && !EndsInNewline(seen))
    }

    /** The reader LineTerminatedReader{R: r}: no error saved, no byte
        seen. */
    constructor (r: Reader)
      ensures Valid() && R == r && savedErr.None? && !wasFinalByteNewline
      ensures seen == [] && emitted == [] && !ended
      ensures source == Pending(r.steps) && outcome == Outcome(r.steps)
    {
      R := r;
      savedErr := None;
      wasFinalByteNewline := false;
      seen, emitted, ended := [], [], false;
      source, outcome := Pending(r.steps), Outcome(r.steps);
    }

    /** Reads up to p.Length bytes into p. A saved error is answered first
        with the deferred newline; otherwise R's answer passes through,
        with a newline added at io.EOF when the last byte read was not a
        newline, or deferred to the next call when p is full. */
    method Read(p: array<byte>) returns (n: int, err: Option<Error>)
      requires Valid()
      modifies this, p, R
      ensures Valid() && R == old(R)
      ensures source == old(source) && outcome == old(outcome)
      ensures n == -1 || 0 <= n <= p.Length
      ensures n >= 0 ==> emitted == old(emitted) + p[..n]
      ensures n < 0 ==> emitted == old(emitted)
      ensures ended == (old(ended) || err.Some?)
      // the first error returned completes the stream
      ensures !old(ended) && err.Some? ==> err == Some(outcome) && emitted == Delivered(source, outcome)
      // a saved error is answered with the deferred newline
      ensures old(savedErr).Some? && p.Length == 0 ==>
                n == 0 && err.None? && savedErr == old(savedErr) && unchanged(R)
      ensures old(savedErr).Some? && p.Length > 0 ==>
                && n == 1 && p[0] == NL && err == old(savedErr) && savedErr.None?
                && wasFinalByteNewline == old(wasFinalByteNewline) && unchanged(R)
      // otherwise R's answer passes through
      ensures old(savedErr).None? ==>
                var n0, e0 := R.lastCount, R.lastErr;
                && (n0 == -1 || 0 <= n0 <= p.Length)
                && (n0 > 0 ==> wasFinalByteNewline == (p[n0 - 1] == NL))
                && (n0 <= 0 ==> wasFinalByteNewline == old(wasFinalByteNewline))
                && (if wasFinalByteNewline || e0.None? || !IsEOF(e0.value) then
                      n == n0 && err == e0 && savedErr.None?
                    else if n0 < p.Length then
                      n == n0 + 1 && 0 <= n0 && p[n0] == NL && err == e0 && savedErr.None?
                    else
                      n == n0 && err.None? && savedErr == e0)
    {
      if savedErr.Some? {
        n, err := Answer(p);
        return;
      }
      n, err := Pass(p);
    }

    /** Read with an error saved: hand out the deferred newline and the
        exact error R returned. */
    method Answer(p: array<byte>) returns (n: int, err: Option<Error>)
      requires Valid() && savedErr.Some?
      modifies this, p
      ensures Valid() && R == old(R) && seen == old(seen) && source == old(source) && outcome == old(outcome)
      ensures wasFinalByteNewline == old(wasFinalByteNewline)
      ensures 0 <= n <= p.Length && emitted == old(emitted) + p[..n]
      ensures ended == (old(ended) || err.Some?)
      ensures !old(ended) && err.Some? ==> err == Some(outcome) && emitted == Delivered(source, outcome)
      ensures p.Length == 0 ==> n == 0 && err.None? && savedErr == old(savedErr)
      ensures p.Length > 0 ==> n == 1 && p[0] == NL && err == old(savedErr) && savedErr.None?
    {
      if p.Length == 0 {
        // from io.Reader documentation
        assert p[..0] == [];
        return 0, None;
      }
      p[0] := NL;
      err := savedErr;
      savedErr := None;
      n := 1;
      assert p[..1] == [NL];
      ended := true;
      emitted := emitted + [NL];
    }

    /** Read with no error saved: read from R, then add or defer the
        final newline at io.EOF. */
    method Pass(p: array<byte>) returns (n: int, err: Option<Error>)
      requires Valid() && savedErr.None?
      modifies this, p, R
      ensures Valid() && R == old(R) && source == old(source) && outcome == old(outcome)
      ensures n == -1 || 0 <= n <= p.Length
      ensures n >= 0 ==> emitted == old(emitted) + p[..n]
      ensures n < 0 ==> emitted == old(emitted)
      ensures ended == (old(ended) || err.Some?)
      ensures !old(ended) && err.Some? ==> err == Some(outcome) && emitted == Delivered(source, outcome)
      ensures var n0, e0 := R.lastCount, R.lastErr;
                && (n0 == -1 || 0 <= n0 <= p.Length)
                && (n0 > 0 ==> wasFinalByteNewline == (p[n0 - 1] == NL))
                && (n0 <= 0 ==> wasFinalByteNewline == old(wasFinalByteNewline))
                && (if wasFinalByteNewline || e0.None? || !IsEOF(e0.value) then
                      n == n0 && err == e0 && savedErr.None?
                    else if n0 < p.Length then
                      n == n0 + 1 && 0 <= n0 && p[n0] == NL && err == e0 && savedErr.None?
                    else
                      n == n0 && err.None? && savedErr == e0)
    {
      var got, e, chunk := Fetch(p);
      n, err := Settle(p, got, e, chunk);
    }

    /** The first half of Pass: read from R and note whether the last
        byte read is a newline. */
    method Fetch(p: array<byte>) returns (got: int, e: Option<Error>, ghost chunk: seq<byte>)
      requires Valid() && savedErr.None?
      modifies this`wasFinalByteNewline, this`seen, p, R
      ensures R == old(R) && R.lastCount == got && R.lastErr == e
      ensures got == -1 || 0 <= got <= p.Length
      ensures got < 0 ==> e.None? && chunk == []
      ensures got >= 0 ==> chunk == p[..got]
      ensures seen == old(seen) + chunk && wasFinalByteNewline == EndsInNewline(seen)
      ensures got > 0 ==> wasFinalByteNewline == (p[got - 1] == NL)
      ensures got <= 0 ==> wasFinalByteNewline == old(wasFinalByteNewline)
      ensures !ended && e.None? ==> seen + Pending(R.steps) == source && Outcome(R.steps) == outcome
      ensures !ended && e.Some? ==> seen == source && e.value == outcome
    {
      ghost var steps := R.steps;
      got, e := R.Read(p, 0);
      chunk := if got >= 0 then p[..got] else [];
      if p.Length > 0 {
        assert got >= 0 ==> p[0..got] == p[..got];
        Received(seen, chunk, steps, R.steps, got, e, source);
      }
      if got > 0 {
        // Only update final byte was newline if at least one byte.
        wasFinalByteNewline := p[got - 1] == NL;
        assert (seen + chunk)[|seen + chunk| - 1] == p[got - 1];
      }
      seen := seen + chunk;
    }

    /** The second half of Pass: R's answer passes through unless it is
        io.EOF after a final byte that is no newline; then the newline is
        added when p has room for it, and deferred otherwise. */
    method Settle(p: array<byte>, got: int, e: Option<Error>, ghost chunk: seq<byte>) returns (n: int, err: Option<Error>)
      requires savedErr.None? && (got == -1 || 0 <= got <= p.Length)
      requires got < 0 ==> e.None? && chunk == []
      requires got >= 0 ==> chunk == p[..got]
      requires wasFinalByteNewline == EndsInNewline(seen)
      requires !ended ==> emitted + chunk == seen
      requires !ended && e.Some? ==> seen == source && e.value == outcome
      modifies this`savedErr, this`emitted, this`ended, p
      ensures got >= 0 ==> p[..got] == old(p[..got])
      ensures n == -1 || 0 <= n <= p.Length
      ensures n >= 0 ==> emitted == old(emitted) + p[..n]
      ensures n < 0 ==> emitted == old(emitted)
      ensures ended == (old(ended) || err.Some?)
      ensures !ended ==> emitted == seen
      ensures !ended && savedErr.Some? ==>
                seen == source && savedErr.value == outcome && IsEOF(outcome) && !EndsInNewline(seen)
      ensures !old(ended) && err.Some? ==> err == Some(outcome) && emitted == Delivered(source, outcome)
      ensures if wasFinalByteNewline || e.None? || !IsEOF(e.value) then
                n == got && err == e && savedErr.None?
              else if got < p.Length then
                n == got + 1 && 0 <= got && p[got] == NL && err == e && savedErr.None?
              else
                n == got && err.None? && savedErr == e
    {
      if wasFinalByteNewline || e.None? || !IsEOF(e.value) {
        emitted := emitted + chunk;
        ended := ended || e.Some?;
        return got, e;
      }
      // Received EOF but final byte was not a newline.
      if got < p.Length {
        // The buffer can hold the final newline.
        p[got] := NL;
        assert p[..got + 1] == chunk + [NL];
        emitted := emitted + chunk + [NL];
        ended := true;
        return got + 1, e;
      }
      // No room to append the newline: return it and this error next time.
      savedErr := e;
      emitted := emitted + chunk;
      return got, None;
    }
  }

  /** One read from R: what was seen before, the chunk, and the bytes R
      still holds make up the source; an error ends it. */
  lemma Received(seen: seq<byte>, chunk: seq<byte>, steps: seq<Step>, steps': seq<Step>,
                 n: int, e: Option<Error>, source: seq<byte>)
    requires Answered(steps, steps', chunk, n, e)
    ensures seen + Pending(steps) == source && e.None? ==> (seen + chunk) + Pending(steps') == source
    ensures seen + Pending(steps) == source && e.Some? ==> seen + chunk == source
    ensures n <= 0 ==> chunk == []
  {
    Associate(seen, chunk, Pending(steps'));
  }
}
