/** OneNewline: normalise a string so that it ends in exactly one
    newline. Go strings are byte sequences, so the model works on bytes. */
module OneNewline {
  import opened Bytes

  /** `s` without the run of newlines at its end. */
  function TrimTrailingNewlines(s: seq<byte>): (r: seq<byte>)
    ensures r <= s
    ensures r == [] || r[|r| - 1] != NL
    ensures forall k :: |r| <= k < |s| ==> s[k] == NL
  {
    if s != [] && s[|s| - 1] == NL then TrimTrailingNewlines(s[..|s| - 1]) else s
  }

  /** What OneNewline returns: the text of `s` before its trailing
      newlines, followed by a single newline. */
  function WithOneNewline(s: seq<byte>): seq<byte>
  {
    TrimTrailingNewlines(s) + [NL]
  }

  /** The prefix s[..j] is the trimmed form of `s` when it does not end in
      a newline and only newlines follow it. */
  lemma TrimmedAt(s: seq<byte>, j: nat)
    requires j <= |s|
    requires j == 0 || s[j - 1] != NL
    requires forall k :: j <= k < |s| ==> s[k] == NL
    ensures TrimTrailingNewlines(s) == s[..j]
  {
  }

  /** The loop of oneNewline.go: scan back from the end for the last byte
      that is not a newline. */
  method OneNewline(s: seq<byte>) returns (r: seq<byte>)
    ensures r == WithOneNewline(s)
  {
    var l := |s|;
    if l == 0 {
      TrimmedAt(s, 0);
      return [NL];
    }
    var i := l - 1;
    while i >= 0
      invariant -1 <= i < l
      invariant forall k :: i < k < l ==> s[k] == NL
    {
      if s[i] != NL {
        TrimmedAt(s, i + 1);
        if i + 1 < l && s[i + 1] == NL {
          assert s[..i + 2] == s[..i + 1] + [NL];
          return s[..i + 2];
        }
        return s[..i + 1] + [NL];
      }
      i := i - 1;
    }
    // The entire input consists of newlines: keep the first one.
    TrimmedAt(s, 0);
    return s[..1];
  }

  /** The empty string becomes a lone newline. */
  lemma EmptyBecomesNewline()
    ensures WithOneNewline([]) == [NL]
  {
  }

  /** A string made only of newlines becomes its first byte, "\n". */
  lemma {:induction false} OnlyNewlines(s: seq<byte>)
    requires s != []
    requires forall k :: 0 <= k < |s| ==> s[k] == NL
    ensures WithOneNewline(s) == s[..1] == [NL]
  {
    TrimmedAt(s, 0);
  }

  /** A string that does not end in a newline gains one. */
  lemma Unterminated(s: seq<byte>)
    requires s == [] || s[|s| - 1] != NL
    ensures WithOneNewline(s) == s + [NL]
  {
  }

  /** A string that already ends in newlines after some other byte is cut
      back to its first trailing newline: the result is a prefix of `s`. */
  lemma {:induction false} CutBack(s: seq<byte>, i: nat)
    requires i + 1 < |s| && s[i] != NL
    requires forall k :: i < k < |s| ==> s[k] == NL
    ensures WithOneNewline(s) == s[..i + 2]
    ensures WithOneNewline(s) <= s
  {
    TrimmedAt(s, i + 1);
    assert s[..i + 2] == s[..i + 1] + [NL];
  }

  /** The result ends in a newline, and in exactly one unless it is just
      "\n". */
  lemma Shape(s: seq<byte>)
    ensures var r := WithOneNewline(s); EndsInNewline(r) && (|r| == 1 || r[|r| - 2] != NL)
  {
  }

  /** Interior newlines are kept: removing the final newline of the result
      gives `s` with its trailing newlines removed, and that is a prefix of
      `s`. */
  lemma KeepsInterior(s: seq<byte>)
    ensures var r := WithOneNewline(s); r[..|r| - 1] == TrimTrailingNewlines(s) && r[..|r| - 1] <= s
  {
  }

  /** Normalising twice is the same as normalising once. */
  lemma {:induction false} Idempotent(s: seq<byte>)
    ensures WithOneNewline(WithOneNewline(s)) == WithOneNewline(s)
  {
    var t := TrimTrailingNewlines(s);
    TrimmedAt(t + [NL], |t|);
    assert (t + [NL])[..|t|] == t;
  }

  /** oneNewline_test.go's example: "abc\n\ndef\n\n" (in ASCII codes)
      becomes "abc\n\ndef\n". */
  lemma ExampleEmbedded()
    ensures WithOneNewline([97, 98, 99, NL, NL, 100, 101, 102, NL, NL])
         == [97, 98, 99, NL, NL, 100, 101, 102, NL]
  {
    var s: seq<byte> := [97, 98, 99, NL, NL, 100, 101, 102, NL, NL];
    CutBack(s, 7);
  }
}
