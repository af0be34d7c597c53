/** PerLineWriter: an io.WriteCloser that hands its sink every completed
    line in a Write call of its own, and keeps the unterminated tail
    buffered until more bytes or Close arrive. */
module PerLine {
  import opened Bytes
  import opened Io

  /** The capacity of the first buffer allocated for a small write. */
  const SmallBufferSize: nat := 64

  /** The lines Write hands the sink, in order, when the buffered bytes
      are `w` and the search for the first newline starts at index `k`:
      each line ends at the next newline found, and every search after
      the first starts right after the previous line. */
  function Split(w: seq<byte>, k: nat): seq<seq<byte>>
    requires k <= |w|
    decreases |w|
  {
    var j := IndexByte(w[k..], NL);
    if j < 0 then [] else [w[..k + j + 1]] + Split(w[k + j + 1..], 0)
  }

  /** The bytes that stay buffered after those lines. */
  function Rest(w: seq<byte>, k: nat): seq<byte>
    requires k <= |w|
    decreases |w|
  {
    var j := IndexByte(w[k..], NL);
    if j < 0 then w else Rest(w[k + j + 1..], 0)
  }

  /** Such a sink answers every one of those calls without an error. */
  predicate CleanRun(policy: WritePolicy, lines: seq<seq<byte>>)
  {
    lines == [] ||
    (CleanRun(policy, lines[..|lines| - 1]) && Respond(policy, |lines[|lines| - 1]|).err.None?)
  }

  /** One round of Write's loop: the line found after `s` is cut off the
      front of `v`, and the search for the next starts right after it. */
  lemma SplitStep(v: seq<byte>, s: nat)
    requires s <= |v| && IndexByte(v[s..], NL) >= 0
    ensures var i := s + IndexByte(v[s..], NL) + 1;
      && Split(v, s) == [v[..i]] + Split(v[i..], 0)
      && Rest(v, s) == Rest(v[i..], 0)
  {
  }

  /** The lines and the rest make up the buffered bytes, in order: no
      byte is lost, duplicated or reordered. */
  lemma {:induction false} SplitConserves(w: seq<byte>, k: nat)
    requires k <= |w|
    ensures Concat(Split(w, k)) + Rest(w, k) == w
    decreases |w|
  {
    var j := IndexByte(w[k..], NL);
    if j >= 0 {
      var i := k + j + 1;
      SplitStep(w, k);
      SplitConserves(w[i..], 0);
      ConsConserves(w[..i], Split(w[i..], 0), Rest(w[i..], 0), w[i..]);
      SliceJoin(w, i);
    }
  }

  /** Putting one more line in front of lines that, with the rest, make
      up `tail` makes up that line followed by `tail`. */
  lemma ConsConserves(head: seq<byte>, lines: seq<seq<byte>>, rest: seq<byte>, tail: seq<byte>)
    requires Concat(lines) + rest == tail
    ensures Concat([head] + lines) + rest == head + tail
  {
    ConcatCons(head, lines);
    Associate(head, Concat(lines), rest);
  }

  /** Concat distributes over putting one more sequence in front. */
  lemma {:induction false} ConcatCons(s: seq<byte>, ss: seq<seq<byte>>)
    ensures Concat([s] + ss) == s + Concat(ss)
    decreases |ss|
  {
    if ss == [] {
      assert [s] + ss == [s];
      assert Concat([s][..0]) == [];
    } else {
      var init := ss[..|ss| - 1];
      ConcatCons(s, init);
      assert ([s] + ss)[..|ss|] == [s] + init;
      Associate(s, Concat(init), ss[|ss| - 1]);
    }
  }

  /** Concat distributes over concatenation. */
  lemma {:induction false} ConcatAppend(a: seq<seq<byte>>, b: seq<seq<byte>>)
    ensures Concat(a + b) == Concat(a) + Concat(b)
    decreases |b|
  {
    if b == [] {
      assert a + b == a;
    } else {
      var init := b[..|b| - 1];
      ConcatAppend(a, init);
      assert (a + b)[..|a + b| - 1] == a + init;
      Associate(Concat(a), Concat(init), b[|b| - 1]);
    }
  }

  /** When the bytes before `k` hold no newline, every line handed over
      ends in its only newline, and no newline stays buffered. */
  lemma {:induction false} SplitLines(w: seq<byte>, k: nat)
    requires k <= |w| && NL !in w[..k]
    ensures forall t :: 0 <= t < |Split(w, k)| ==> IsLine(Split(w, k)[t])
    ensures NL !in Rest(w, k)
    decreases |w|
  {
    var j := IndexByte(w[k..], NL);
    if j < 0 {
      NoNewline(w, k);
    } else {
      var i := k + j + 1;
      FirstLine(w, k);
      assert w[i..][..0] == [];
      SplitLines(w[i..], 0);
      var lines, rest := Split(w, k), Split(w[i..], 0);
      assert lines == [w[..i]] + rest;
      forall t | 0 <= t < |lines| ensures IsLine(lines[t]) {
        if t > 0 { assert lines[t] == rest[t - 1]; }
      }
    }
  }

  /** No newline before `k` and none found after it: none at all. */
  lemma NoNewline(w: seq<byte>, k: nat)
    requires k <= |w| && NL !in w[..k] && IndexByte(w[k..], NL) < 0
    ensures NL !in w
  {
    IndexByteFirst(w[k..], NL);
    forall b | 0 <= b < |w| ensures w[b] != NL {
      if b < k { assert w[b] == w[..k][b]; } else { assert w[b] == w[k..][b - k]; }
    }
  }

  /** No newline before `k`: the first line ends in its only newline. */
  lemma FirstLine(w: seq<byte>, k: nat)
    requires k <= |w| && NL !in w[..k] && IndexByte(w[k..], NL) >= 0
    ensures IsLine(w[..k + IndexByte(w[k..], NL) + 1])
  {
    var j := IndexByte(w[k..], NL);
    IndexByteFirst(w[k..], NL);
    var line := w[..k + j + 1];
    forall b | 0 <= b < |line| - 1 ensures line[b] != NL {
      if b < k { assert line[b] == w[..k][b]; } else { assert line[b] == w[k..][b - k]; }
    }
    assert line[|line| - 1] == w[k..][j];
  }

  /** No sink call happens exactly when the new bytes hold no newline;
      then everything stays buffered. */
  lemma SplitNone(w: seq<byte>, k: nat)
    requires k <= |w|
    ensures Split(w, k) == [] <==> NL !in w[k..]
    ensures Split(w, k) == [] ==> Rest(w, k) == w
  {
    var j := IndexByte(w[k..], NL);
    IndexByteFirst(w[k..], NL);
    if NL in w[k..] {
      var b :| 0 <= b < |w[k..]| && w[k..][b] == NL;
    }
  }

  /** A sink that answers every line without an error, and with a true
      count, takes exactly the lines, in order. */
  lemma {:induction false} CleanTaken(policy: WritePolicy, lines: seq<seq<byte>>)
    requires CleanRun(policy, lines) && !policy.BadCount?
    ensures Taken(policy, lines) == Concat(lines)
  {
    if lines != [] {
      CleanTaken(policy, lines[..|lines| - 1]);
      var last := lines[|lines| - 1];
      assert Accepted(last, Respond(policy, |last|).count) == last;
    }
  }

  /** A sink that takes everything never reports an error. */
  lemma {:induction false} AcceptAllIsClean(lines: seq<seq<byte>>)
    ensures CleanRun(AcceptAll, lines)
  {
    if lines != [] {
      AcceptAllIsClean(lines[..|lines| - 1]);
    }
  }

  /** An error-free Write loses nothing: if the sink's bytes followed by
      the live region were everything written before, then after a Write
      of p whose lines the sink all took without an error, they are
      everything written before followed by p. */
  lemma CleanWriteConserves(policy: WritePolicy, history: seq<byte>, written: seq<byte>, live: seq<byte>, p: seq<byte>)
    requires written + live == history && !policy.BadCount?
    requires CleanRun(policy, Split(live + p, |live|))
    ensures var w, k := live + p, |live|;
      (written + Taken(policy, Split(w, k))) + Rest(w, k) == history + p
  {
    var w, k := live + p, |live|;
    CleanTaken(policy, Split(w, k));
    SplitConserves(w, k);
    Associate(written, Concat(Split(w, k)), Rest(w, k));
    Associate(written, live, p);
  }

  class PerLineWriter {
    /** The buffer: buf[..length] is the slice's contents, buf.Length its
        capacity, and a zero-length array stands for the nil slice. */
    var buf: array<byte>
    var length: nat
    /** Bytes before off have already been written to WC. */
    var off: nat
    var WC: Sink?

    ghost predicate Valid()
      reads this
    {
      off <= length <= buf.Length
    }

    /** The live region buf[off:len(buf)], the bytes not yet written. */
    function Live(): seq<byte>
      reads this, buf
      requires off <= length <= buf.Length
    {
      buf[off..length]
    }

    /** NewPerLineWriter: an empty writer in front of wc. */
    constructor (wc: Sink?)
      ensures Valid() && fresh(buf) && buf.Length == 0
      ensures length == 0 && off == 0 && WC == wc
    {
      buf := new byte[0];
      length, off := 0, 0;
      WC := wc;
    }

    /** Reslices the buffer to n more bytes when the capacity allows. */
    method BufferGrowInline(n: nat) returns (r: nat, ok: bool)
      requires off <= length <= buf.Length
      modifies this
      ensures buf == old(buf) && off == old(off) && WC == old(WC)
      ensures ok <==> old(length) + n <= buf.Length
      ensures ok ==> r == old(length) && length == old(length) + n
      ensures !ok ==> r == 0 && length == old(length)
    {
      var l := length;
      var lpn := l + n;
      if lpn <= buf.Length {
        length := lpn;
        return l, true;
      }
      return 0, false;
    }

    /** Empties the buffer but keeps its backing array. */
    method BufferReset()
      modifies this
      ensures buf == old(buf) && WC == old(WC)
      ensures length == 0 && off == 0
    {
      length := 0;
      off := 0;
    }

    /** Makes room for n more bytes after the live region and returns the
        index where they go; the live bytes are kept, possibly moved to
        the front of the same array or of a new one. */
    method BufferGrow(n: nat) returns (r: nat)
      requires Valid()
      modifies this, buf
      ensures Valid() && WC == old(WC)
      ensures off <= r && r + n == length
      ensures buf[off..r] == old(Live())
      ensures off == old(off) || off == 0
      ensures buf == old(buf) || fresh(buf)
    {
      var m := length - off;
      if m == 0 && off != 0 {
        // Reset the buffer to make an allocation less likely.
        BufferReset();
      }
      var i, ok := BufferGrowInline(n);
      if ok {
        return i;
      }
      if buf.Length == 0 && n <= SmallBufferSize {
        buf := new byte[SmallBufferSize];
        length := n;
        return 0;
      }
      r := Relocate(n);
    }

    /** The rest of bufferGrow, once reslicing and a first small
        allocation are ruled out: slide the live bytes to the front when
        that leaves at least half the capacity free, or copy them to the
        front of an array of twice the capacity plus n. */
    method Relocate(n: nat) returns (r: nat)
      requires Valid()
      modifies this, buf
      ensures Valid() && WC == old(WC)
      ensures off == 0 && r + n == length
      ensures buf[..r] == old(Live())
      ensures buf == old(buf) || fresh(buf)
    {
      var m := length - off;
      var mpn := m + n;
      var c := buf.Length;
      if mpn <= c / 2 {
        // Slide the live bytes down rather than allocate.
        SlideDown(buf, off, length);
      } else {
        var grown := new byte[2 * c + n];
        CopyInto(grown, 0, buf[off..length]);
        buf := grown;
      }
      off := 0;
      length := mpn;
      return m;
    }

    /** The first half of Write: grow the buffer and copy p after the live
        region. m is where p starts. */
    method Append(p: seq<byte>) returns (m: nat)
      requires Valid()
      modifies this, buf
      ensures Valid() && WC == old(WC) && (buf == old(buf) || fresh(buf))
      ensures off <= m && m - off == |old(Live())| && m + |p| == length
      ensures Live() == old(Live()) + p && buf[m..length] == p
    {
      var ok;
      m, ok := BufferGrowInline(|p|);
      if !ok {
        m := BufferGrow(|p|);
      }
      ghost var before := buf[off..m];
      CopyInto(buf, m, p);
      assert buf[off..m] == before;
      ArrayJoin(buf, off, m, length, before, p);
    }

    /** Appends p, then writes each completed line to WC in a call of its
        own, stopping at the first error. The count returned is always
        len(p), even when WC fails. */
    method Write(p: seq<byte>) returns (n: int, err: Option<Error>, ghost count: nat)
      requires Valid() && (WC != null || NL !in p)
      modifies this, buf, WC
      ensures Valid() && WC == old(WC) && (buf == old(buf) || fresh(buf))
      ensures n == |p|
      ensures var w, k := old(Live()) + p, |old(Live())|;
        && (Split(w, k) == [] ==> count == 0 && err.None? && Live() == w && (WC != null ==> unchanged(WC)))
        && (Split(w, k) != [] ==>
              && WC != null
              && WC.policy == old(WC.policy) && WC.closeErr == old(WC.closeErr) && WC.closes == old(WC.closes)
              && Drained(WC.policy, old(WC.calls), old(WC.replies), old(WC.written),
                         WC.calls, WC.replies, WC.written, w, k, count, err, Live()))
      // with no newline buffered before, each call WC received is one line
      // and an error-free Write leaves no newline buffered
      ensures NL !in old(Live()) && WC != null ==>
        forall c :: |old(WC.calls)| <= c < |WC.calls| ==> IsLine(WC.calls[c])
      ensures NL !in old(Live()) && err.None? ==> NL !in Live()
      // an error-free Write loses no byte and hands none over twice
      ensures err.None? && WC != null && !WC.policy.BadCount? ==>
        WC.written + Live() == old(WC.written) + (old(Live()) + p)
    {
      ghost var w := Live() + p;
      var m := Append(p);
      ghost var k: nat := m - off;
      assert w[k..] == p && w[..k] == old(Live());
      SplitNone(w, k);
      // The live bytes before m hold no newline, so search from m.
      var index := IndexByte(buf[m..length], NL);
      if index == -1 {
        if NL !in w[..k] {
          NoNewline(w, k);
        }
        return |p|, None, 0;
      }
      index := index + m + 1;
      err, count := Drain(index, k, w);
      n := |p|;
      if NL !in w[..k] {
        DrainedLines(WC.policy, old(WC.calls), old(WC.replies), old(WC.written),
                     WC.calls, WC.replies, WC.written, w, k, count, err, Live());
      }
      if err.None? && !WC.policy.BadCount? {
        DrainedConserves(WC.policy, old(WC.calls), old(WC.replies), old(WC.written),
                         WC.calls, WC.replies, WC.written, w, k, count, err, Live());
      }
    }

    /** Write's loop: hand WC buf[off:index], advance past it, and look for
        the next newline, until none is left or WC fails. `w` is the live
        region on entry and `k` where its first search started. */
    method Drain(index: nat, ghost k: nat, ghost w: seq<byte>) returns (err: Option<Error>, ghost count: nat)
      requires Valid() && WC != null && w == Live() && k <= |w|
      requires IndexByte(w[k..], NL) >= 0 && index == off + k + IndexByte(w[k..], NL) + 1
      modifies this, WC
      ensures Valid() && WC == old(WC) && buf == old(buf) && length == old(length)
      ensures WC.policy == old(WC.policy) && WC.closeErr == old(WC.closeErr) && WC.closes == old(WC.closes)
      ensures Drained(WC.policy, old(WC.calls), old(WC.replies), old(WC.written),
                      WC.calls, WC.replies, WC.written, w, k, count, err, Live())
    {
      ghost var calls0, replies0, written0 := WC.calls, WC.replies, WC.written;
      ghost var done: seq<seq<byte>> := [];
      ghost var s: nat := k;
      ghost var v := w;
      var next := index;
      Started(w, k);
      while true
        invariant Valid() && WC == old(WC) && buf == old(buf) && length == old(length)
        invariant WC.policy == old(WC.policy) && WC.closeErr == old(WC.closeErr) && WC.closes == old(WC.closes)
        invariant Live() == v && s <= |v| && Progress(w, k, done, v, s)
        invariant IndexByte(v[s..], NL) >= 0 && next == off + s + IndexByte(v[s..], NL) + 1
        invariant Recorded(WC.policy, calls0, replies0, written0, WC.calls, WC.replies, WC.written, done)
        invariant CleanRun(WC.policy, done)
        decreases length - off
      {
        var stop;
        ghost var before := off;
        err, stop, next, count, done, v, s := Round(next, w, k, calls0, replies0, written0, done, v, s);
        if stop {
          return;
        }
      }
    }

    /** One pass of Drain's loop: hand WC the next line; stop on an error
        or when no newline is left, else leave the next search set up. */
    method Round(next: nat, ghost w: seq<byte>, ghost k: nat,
                 ghost calls0: seq<seq<byte>>, ghost replies0: seq<Reply>, ghost written0: seq<byte>,
                 ghost done: seq<seq<byte>>, ghost v: seq<byte>, ghost s: nat)
      returns (err: Option<Error>, stop: bool, next': nat, ghost count: nat,
               ghost done': seq<seq<byte>>, ghost v': seq<byte>, ghost s': nat)
      requires Valid() && WC != null
      requires Live() == v && s <= |v| && Progress(w, k, done, v, s)
      requires IndexByte(v[s..], NL) >= 0 && next == off + s + IndexByte(v[s..], NL) + 1
      requires Recorded(WC.policy, calls0, replies0, written0, WC.calls, WC.replies, WC.written, done)
      requires CleanRun(WC.policy, done)
      modifies this, WC
      ensures Valid() && WC == old(WC) && buf == old(buf) && length == old(length)
      ensures WC.policy == old(WC.policy) && WC.closeErr == old(WC.closeErr) && WC.closes == old(WC.closes)
      ensures stop ==> Drained(WC.policy, calls0, replies0, written0,
                               WC.calls, WC.replies, WC.written, w, k, count, err, Live())
      ensures !stop ==> && off > old(off)
                        && Live() == v' && s' <= |v'| && Progress(w, k, done', v', s')
                        && IndexByte(v'[s'..], NL) >= 0 && next' == off + s' + IndexByte(v'[s'..], NL) + 1
                        && Recorded(WC.policy, calls0, replies0, written0, WC.calls, WC.replies, WC.written, done')
                        && CleanRun(WC.policy, done')
    {
      ghost var i := next - off;
      Advance(w, k, done, v, s, i);
      err := Deliver(next, calls0, replies0, written0, done, v, i);
      if err.Some? {
        Failed(WC.policy, calls0, replies0, written0, WC.calls, WC.replies, WC.written, w, k, done, v, s, i, err);
        return err, true, next, |done| + 1, done, v, s;
      }
      done', v' := done + [v[..i]], v[i..];
      stop, next', count, s' := Resume(next, w, k, calls0, replies0, written0, done', v, i);
    }

    /** The rest of a pass once WC took the line without an error: advance
        past it and search for the next newline. */
    method Resume(next: nat, ghost w: seq<byte>, ghost k: nat,
                  ghost calls0: seq<seq<byte>>, ghost replies0: seq<Reply>, ghost written0: seq<byte>,
                  ghost done: seq<seq<byte>>, ghost v0: seq<byte>, ghost i: nat)
      returns (stop: bool, next': nat, ghost count: nat, ghost s': nat)
      requires Valid() && WC != null && Live() == v0 && 0 < i <= |v0| && next == off + i
      requires Progress(w, k, done, v0[i..], 0) && done != []
      requires Recorded(WC.policy, calls0, replies0, written0, WC.calls, WC.replies, WC.written, done)
      requires CleanRun(WC.policy, done)
      modifies this
      ensures Valid() && WC == old(WC) && buf == old(buf) && length == old(length) && off > old(off)
      ensures stop ==> Drained(WC.policy, calls0, replies0, written0,
                               WC.calls, WC.replies, WC.written, w, k, count, None, Live())
      ensures !stop ==> && Live() == v0[i..] && s' == 0
                        && IndexByte(v0[i..][s'..], NL) >= 0 && next' == off + s' + IndexByte(v0[i..][s'..], NL) + 1
    {
      ghost var v := v0[i..];
      ArraySub(buf, off, length, v0, i, |v0|);
      assert v0[i..|v0|] == v;
      off := next;
      var j := IndexByte(buf[off..length], NL);
      if j == -1 {
        Finished(WC.policy, calls0, replies0, written0, WC.calls, WC.replies, WC.written, w, k, done, v);
        return true, next, |done|, 0;
      }
      assert v[0..] == v;
      next' := j + off + 1;
      stop, count, s' := false, 0, 0;
    }

    /** One Write call of Drain's loop: WC is handed buf[off:next], the
        line `line`, and the record of what it was handed grows by it. */
    method Deliver(next: nat, ghost calls0: seq<seq<byte>>, ghost replies0: seq<Reply>, ghost written0: seq<byte>,
                   ghost done: seq<seq<byte>>, ghost v: seq<byte>, ghost i: nat) returns (werr: Option<Error>)
      requires Valid() && WC != null && Live() == v && i <= |v| && next == off + i
      requires Recorded(WC.policy, calls0, replies0, written0, WC.calls, WC.replies, WC.written, done)
      modifies WC
      ensures WC.policy == old(WC.policy) && WC.closeErr == old(WC.closeErr) && WC.closes == old(WC.closes)
      ensures Recorded(WC.policy, calls0, replies0, written0, WC.calls, WC.replies, WC.written, done + [v[..i]])
      ensures werr == Respond(WC.policy, |v[..i]|).err
      ensures CleanRun(WC.policy, done + [v[..i]]) == (CleanRun(WC.policy, done) && werr.None?)
    {
      ghost var line := v[..i];
      ArraySub(buf, off, length, v, 0, i);
      assert v[0..i] == line;
      ghost var calls, replies, written := WC.calls, WC.replies, WC.written;
      var nw;
      nw, werr := WC.Write(buf[off..next]);
      RecordLine(WC.policy, calls0, replies0, written0, calls, replies, written, WC.calls, WC.replies, WC.written,
                 done, line, nw, werr);
    }

    /** Flushes the unterminated rest, if any, then closes WC. A write
        error is returned in preference to the close error; either way WC
        is closed and the writer is left empty, with no sink. */
    method Close() returns (err: Option<Error>)
      requires Valid() && WC != null
      modifies this, WC
      ensures Valid() && WC == null && fresh(buf) && buf.Length == 0
      ensures length == 0 && off == 0
      ensures var s := old(WC);
        && s.closes == old(s.closes) + 1
        && s.policy == old(s.policy) && s.closeErr == old(s.closeErr)
        && (old(Live()) == [] ==>
              s.calls == old(s.calls) && s.replies == old(s.replies) && s.written == old(s.written)
              && err == s.closeErr)
        && (old(Live()) != [] ==>
              && s.calls == old(s.calls) + [old(Live())]
              && s.replies == old(s.replies) + [Respond(s.policy, |old(Live())|)]
              && s.written == old(s.written) + Accepted(old(Live()), s.LastReply().count)
              && err == (if s.LastReply().err.Some? then s.LastReply().err else s.closeErr))
        // without an error, WC ends up holding the whole live region
        && (err.None? && !s.policy.BadCount? ==> s.written == old(s.written) + old(Live()))
    {
      var sink := WC;
      if length - off > 0 {
        var nw, werr := sink.Write(buf[off..length]);
        if werr.Some? {
          var ignored := sink.Close();
          WC := null;
          buf := new byte[0];
          off, length := 0, 0;
          return werr;
        }
      }
      err := sink.Close();
      WC := null;
      buf := new byte[0];
      off, length := 0, 0;
    }
  }

  /** Where Write's loop stands: the lines handed over so far are `done`,
      the live region is `v`, its next search starts at `s`, and together
      these account for the lines and the rest of `w` (and so, by
      SplitConserves, `done` followed by `v` is `w`). */
  predicate Progress(w: seq<byte>, k: nat, done: seq<seq<byte>>, v: seq<byte>, s: nat)
  {
    && k <= |w| && s <= |v|
    && Split(w, k) == done + Split(v, s)
    && Rest(w, k) == Rest(v, s)
  }

  /** A sink that answered calls0, replies0 and written0 has since been
      handed the lines `done`, one Write call each, and answered them as
      its policy dictates. */
  predicate Recorded(policy: WritePolicy, calls0: seq<seq<byte>>, replies0: seq<Reply>, written0: seq<byte>,
                     calls: seq<seq<byte>>, replies: seq<Reply>, written: seq<byte>, done: seq<seq<byte>>)
  {
    && calls == calls0 + done
    && replies == replies0 + Answers(policy, done)
    && written == written0 + Taken(policy, done)
  }

  /** What one Write leaves behind once it found a newline: with `lines`
      the lines of the live region `w` searched from `k`, the first
      `count` of them went to the sink; every one but the last was
      answered without an error; `err` is the last one's error; on
      success all lines went and the rest stays buffered, and on failure
      the failed line and all after it stay buffered. */
  predicate Drained(policy: WritePolicy, calls0: seq<seq<byte>>, replies0: seq<Reply>, written0: seq<byte>,
                    calls: seq<seq<byte>>, replies: seq<Reply>, written: seq<byte>,
                    w: seq<byte>, k: nat, count: nat, err: Option<Error>, live: seq<byte>)
  {
    && k <= |w|
    && var lines := Split(w, k);
    && 0 < count <= |lines|
    && Recorded(policy, calls0, replies0, written0, calls, replies, written, lines[..count])
    && CleanRun(policy, lines[..count - 1])
    && err == Respond(policy, |lines[count - 1]|).err
    && (err.None? ==> count == |lines| && CleanRun(policy, lines) && live == Rest(w, k))
    && (err.Some? ==> Concat(lines[..count - 1]) + live == w)
  }

  /** With no newline before `k`, as between error-free Writes, every
      call the sink received is one line, and when none failed no newline
      is left buffered. */
  lemma DrainedLines(policy: WritePolicy, calls0: seq<seq<byte>>, replies0: seq<Reply>, written0: seq<byte>,
                     calls: seq<seq<byte>>, replies: seq<Reply>, written: seq<byte>,
                     w: seq<byte>, k: nat, count: nat, err: Option<Error>, live: seq<byte>)
    requires Drained(policy, calls0, replies0, written0, calls, replies, written, w, k, count, err, live)
    requires NL !in w[..k]
    ensures forall c :: |calls0| <= c < |calls| ==> IsLine(calls[c])
    ensures err.None? ==> NL !in live
  {
    var lines := Split(w, k);
    SplitLines(w, k);
    forall c | |calls0| <= c < |calls| ensures IsLine(calls[c]) {
      assert calls[c] == lines[..count][c - |calls0|];
    }
  }

  /** A Write that drained every line without an error, to a sink that
      keeps the io.Writer contract, loses no byte: the sink's new bytes
      followed by the live region left are the live region it searched. */
  lemma DrainedConserves(policy: WritePolicy, calls0: seq<seq<byte>>, replies0: seq<Reply>, written0: seq<byte>,
                         calls: seq<seq<byte>>, replies: seq<Reply>, written: seq<byte>,
                         w: seq<byte>, k: nat, count: nat, err: Option<Error>, live: seq<byte>)
    requires Drained(policy, calls0, replies0, written0, calls, replies, written, w, k, count, err, live)
    requires err.None? && !policy.BadCount?
    ensures written + live == written0 + w
  {
    var lines := Split(w, k);
    assert lines[..count] == lines;
    CleanTaken(policy, lines);
    SplitConserves(w, k);
    Associate(written0, Concat(lines), live);
  }

  /** Before the first round nothing is handed over. */
  lemma Started(w: seq<byte>, k: nat)
    requires k <= |w|
    ensures Progress(w, k, [], w, k)
  {
    assert [] + Split(w, k) == Split(w, k);
  }

  /** One round: the next line moves from the live region to `done`. */
  lemma Advance(w: seq<byte>, k: nat, done: seq<seq<byte>>, v: seq<byte>, s: nat, i: nat)
    requires Progress(w, k, done, v, s) && IndexByte(v[s..], NL) >= 0
    requires i == s + IndexByte(v[s..], NL) + 1
    ensures i <= |v| && Progress(w, k, done + [v[..i]], v[i..], 0)
  {
    SplitStep(v, s);
    ProgressNext(w, k, done, v, s, i);
    Associate(done, [v[..i]], Split(v[i..], 0));
  }

  /** The sink's record grows by one Write call of `line`. */
  lemma RecordLine(policy: WritePolicy, calls0: seq<seq<byte>>, replies0: seq<Reply>, written0: seq<byte>,
                   calls: seq<seq<byte>>, replies: seq<Reply>, written: seq<byte>,
                   calls': seq<seq<byte>>, replies': seq<Reply>, written': seq<byte>,
                   done: seq<seq<byte>>, line: seq<byte>, nw: int, werr: Option<Error>)
    requires Recorded(policy, calls0, replies0, written0, calls, replies, written, done)
    requires Reply(nw, werr) == Respond(policy, |line|)
    requires calls' == calls + [line] && replies' == replies + [Reply(nw, werr)]
    requires written' == written + Accepted(line, nw)
    ensures Recorded(policy, calls0, replies0, written0, calls', replies', written', done + [line])
    ensures CleanRun(policy, done + [line]) == (CleanRun(policy, done) && werr.None?)
  {
    assert (done + [line])[..|done|] == done;
    Associate(calls0, done, [line]);
    Associate(replies0, Answers(policy, done), [Reply(nw, werr)]);
    Associate(written0, Taken(policy, done), Accepted(line, nw));
  }

  /** The loop's exit on a failed call: that line was the count-th. */
  lemma Failed(policy: WritePolicy, calls0: seq<seq<byte>>, replies0: seq<Reply>, written0: seq<byte>,
               calls: seq<seq<byte>>, replies: seq<Reply>, written: seq<byte>,
               w: seq<byte>, k: nat, done: seq<seq<byte>>, v: seq<byte>, s: nat, i: nat, werr: Option<Error>)
    requires Progress(w, k, done, v, s) && IndexByte(v[s..], NL) >= 0
    requires i == s + IndexByte(v[s..], NL) + 1
    requires Recorded(policy, calls0, replies0, written0, calls, replies, written, done + [v[..i]])
    requires CleanRun(policy, done)
    requires werr.Some? && werr == Respond(policy, |v[..i]|).err
    ensures Drained(policy, calls0, replies0, written0, calls, replies, written, w, k, |done| + 1, werr, v)
  {
    FailedLine(w, k, done, v, s, i);
    ProgressConserves(w, k, done, v, s);
  }

  /** The line cut off at `i` comes right after the lines `done` among
      the lines of `w`. */
  lemma FailedLine(w: seq<byte>, k: nat, done: seq<seq<byte>>, v: seq<byte>, s: nat, i: nat)
    requires Progress(w, k, done, v, s) && IndexByte(v[s..], NL) >= 0
    requires i == s + IndexByte(v[s..], NL) + 1
    ensures 0 < |done| + 1 <= |Split(w, k)|
    ensures Split(w, k)[..|done| + 1] == done + [v[..i]] && Split(w, k)[..|done|] == done
    ensures Split(w, k)[|done|] == v[..i]
  {
    ProgressNext(w, k, done, v, s, i);
    FailedAt(Split(w, k), done, v[..i], Split(v[i..], 0));
  }

  /** The lines of `w` are `done`, the line cut off at `i`, and the lines
      after it. */
  lemma ProgressNext(w: seq<byte>, k: nat, done: seq<seq<byte>>, v: seq<byte>, s: nat, i: nat)
    requires Progress(w, k, done, v, s) && IndexByte(v[s..], NL) >= 0
    requires i == s + IndexByte(v[s..], NL) + 1
    ensures Split(w, k) == done + ([v[..i]] + Split(v[i..], 0))
  {
    SplitStep(v, s);
  }

  /** The line a failed Write was handed follows the lines handed before it. */
  lemma FailedAt(lines: seq<seq<byte>>, done: seq<seq<byte>>, line: seq<byte>, more: seq<seq<byte>>)
    requires lines == done + ([line] + more)
    ensures 0 < |done| + 1 <= |lines|
    ensures lines[..|done| + 1] == done + [line] && lines[..|done|] == done && lines[|done|] == line
  {
    assert lines[..|done| + 1] == done + [line];
  }

  /** The lines handed over, followed by the live region, are `w`. */
  lemma ProgressConserves(w: seq<byte>, k: nat, done: seq<seq<byte>>, v: seq<byte>, s: nat)
    requires Progress(w, k, done, v, s)
    ensures Concat(done) + v == w
  {
    SplitConserves(w, k);
    SplitConserves(v, s);
    ConcatAppend(done, Split(v, s));
    Associate(Concat(done), Concat(Split(v, s)), Rest(v, s));
  }

  /** The loop's exit once no newline is left: every line went out. */
  lemma Finished(policy: WritePolicy, calls0: seq<seq<byte>>, replies0: seq<Reply>, written0: seq<byte>,
                 calls: seq<seq<byte>>, replies: seq<Reply>, written: seq<byte>,
                 w: seq<byte>, k: nat, done: seq<seq<byte>>, v: seq<byte>)
    requires Progress(w, k, done, v, 0) && IndexByte(v, NL) < 0 && done != []
    requires Recorded(policy, calls0, replies0, written0, calls, replies, written, done)
    requires CleanRun(policy, done)
    ensures Drained(policy, calls0, replies0, written0, calls, replies, written, w, k, |done|, None, v)
  {
    assert v[0..] == v;
    assert Split(v, 0) == [] && Rest(v, 0) == v;
    var lines := Split(w, k);
    assert lines == done + [];
    assert lines[..|done|] == done;
    assert lines[..|done| - 1] == done[..|done| - 1];
    assert CleanRun(policy, done[..|done| - 1]) && Respond(policy, |done[|done| - 1]|).err.None?;
  }
}
