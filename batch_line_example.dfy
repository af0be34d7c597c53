/** The ReadFrom scenario of the repository's tests
    (batchLineWriter_test.go:108-134), worked through the model. */
module BatchLineExample {
  import opened Bytes
  import opened Io
  import opened BatchLine

  /** The bytes of "line d", with `d` the ASCII code of its digit. */
  function Line(d: byte): (r: seq<byte>)
    requires 48 <= d <= 57
    ensures |r| == 6 && NL !in r
  {
    [108, 105, 110, 101, 32, d]
  }

  /** "line 1\nline 2\nline 3\nline 4\n", the terminated part of the stream. */
  function Terminated(): (r: seq<byte>)
    ensures |r| == 28 && r[27] == NL
  {
    Line(49) + [NL] + Line(50) + [NL] + Line(51) + [NL] + Line(52) + [NL]
  }

  /** The test reader's script: four terminated lines, then "line 5"
      together with io.EOF. */
  function Script(): seq<Step>
  {
    [Chunk(Line(49) + [NL], None), Chunk(Line(50) + [NL], None), Chunk(Line(51) + [NL], None),
     Chunk(Line(52) + [NL], None), Chunk(Line(53), Some(EOF))]
  }

  /** The script yields the 34 bytes of the five lines and then io.EOF,
      and never answers a negative count. */
  lemma ScriptYields()
    ensures Pending(Script()) == Terminated() + Line(53) && Outcome(Script()) == EOF
    ensures Counted(Script())
  {
    var steps := Script();
    var l1, l2, l3, l4, l5 := Line(49) + [NL], Line(50) + [NL], Line(51) + [NL], Line(52) + [NL], Line(53);
    assert Pending(steps[4..]) == l5 && Outcome(steps[4..]) == EOF by {
      assert steps[4..][0] == Chunk(l5, Some(EOF));
    }
    assert Pending(steps[3..]) == l4 + l5 && Outcome(steps[3..]) == EOF by {
      assert steps[3..][0] == Chunk(l4, None) && steps[3..][1..] == steps[4..];
    }
    assert Pending(steps[2..]) == l3 + (l4 + l5) && Outcome(steps[2..]) == EOF by {
      assert steps[2..][0] == Chunk(l3, None) && steps[2..][1..] == steps[3..];
    }
    assert Pending(steps[1..]) == l2 + (l3 + (l4 + l5)) && Outcome(steps[1..]) == EOF by {
      assert steps[1..][0] == Chunk(l2, None) && steps[1..][1..] == steps[2..];
    }
    assert Pending(steps) == l1 + (l2 + (l3 + (l4 + l5))) && Outcome(steps) == EOF by {
      assert steps[0] == Chunk(l1, None);
    }
    assert l1 + (l2 + (l3 + (l4 + l5))) == Terminated() + l5;
  }

  /** Four newline-terminated lines and an unterminated fifth, read
      through a writer with threshold 5 into a sink that takes every
      byte: ReadFrom reports all 34 bytes and no error, the sink holds
      the four terminated lines, and Close hands it the fifth. */
  method ReadFromLines() returns (n: int, err: Option<Error>, closeErr: Option<Error>,
                                  ghost afterRead: seq<byte>, ghost afterClose: seq<byte>)
    ensures n == 34 && err.None? && closeErr.None?
    ensures afterRead == Terminated() && afterClose == Terminated() + Line(53)
  {
    var sink := new Sink(AcceptAll, None);
    var r := new Reader(Script());
    var lw, e := NewBatchLineWriter(sink, 5);
    ScriptYields();
    ghost var drawn, cs, rs, failed, done, last, chunk;
    n, err, drawn, cs, rs, failed, done, last, chunk := lw.ReadFrom(r);
    AcceptAllClean(cs);
    assert !failed;
    afterRead := sink.written;
    assert drawn == Terminated() + Line(53);
    assert sink.written == Concat(cs) && sink.written + lw.Live() == drawn;
    TailStaysBuffered(cs, lw.Live(), Terminated(), Line(53), 5);
    closeErr := lw.Close();
    afterClose := sink.written;
  }
}
