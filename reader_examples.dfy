/** Concrete runs of the reader: the two unit tests of the repository and one
    input for each of the three ways the output departs from the lines of the
    source. */
module ReaderExamples {
  import opened Lines
  import opened ReaderSpec
  import opened Reader
  import opened Handler

  /** The lines of a text with one line feed in the middle. */
  lemma TwoLines(a: string, b: string)
    requires a != [] && b != [] && '\n' !in a && '\n' !in b
    ensures SplitLines(a + "\n" + b) == [a, b]
    ensures WholeTextOutput(a + "\n" + b) == [b, a]
  {
    SplitLinesAround(a, b);
    SplitOfLine(a);
    SplitOfLine(b);
    assert Reverse([a, b]) == [b, a];
  }

  /** Two lines without a final line feed come out latest first
      (`test_simple_file`). */
  lemma SimpleFile()
    ensures ReadInReverse("line1\nline2", DefaultChunkSize) == Outcome(["line2", "line1"], false)
  {
    assert "line1\nline2" == "line1" + "\n" + "line2";
    TwoLines("line1", "line2");
    SingleChunk("line1\nline2", DefaultChunkSize);
  }

  /** With a chunk of one character, two lines of one emoji each come out
      whole and latest first: positions count characters, so no character is
      split (`test_utf8`). */
  lemma Utf8OneCharacterChunks()
    ensures ReadInReverse("\U{1F600}\n\U{1FAE0}", 1) == Outcome(["\U{1FAE0}", "\U{1F600}"], false)
  {
    var data := "\U{1F600}\n\U{1FAE0}";
    assert data == "\U{1F600}" + "\n" + "\U{1FAE0}";
    TwoLines("\U{1F600}", "\U{1FAE0}");
    assert NoBlankAtBoundary(data, 1, |data|) by {
      forall p | 0 < p < |data| && p % 1 == 0 ensures data[p - 1..p + 1] != "\n\n" {
        assert data[p - 1] != '\n' || data[p] != '\n';
      }
    }
    ChunkingInvisible(data, 1);
  }

  /** A single line that ends with a line feed is yielded as it is, line
      feed included, because the carry is replaced only by a round that
      yields something. */
  lemma SingleLineKeepsItsLineFeed()
    ensures ReadInReverse("abc\n", DefaultChunkSize) == Outcome(["abc\n"], false)
  {
    SingleChunk("abc\n", DefaultChunkSize);
    SplitLinesOfOneLine("abc\n");
  }

  /** A source of size 4 read in chunks of 3. */
  const Overlapping: string := "a\nbc"

  /** The round at 1 reads "a\nb" from offset 0 and yields "b". */
  lemma OverlapRoundAt1()
    ensures Rounds(Overlapping, 3, 1, []) == Outcome(["b", "a"], false)
  {
    var chunk := Chunk(Overlapping, 3, 1, []);
    assert chunk == "a" + "\n" + "b";
    TwoLines("a", "b");
    RoundYields(Overlapping, 3, 1, [], ["a", "b"], "a");
    assert Rounds(Overlapping, 3, 0, "a") == Outcome(["a"], false);
    assert Reverse(["b"]) == ["b"];
  }

  /** The round at 4 reads "\nbc" and yields "bc", carrying the empty line. */
  lemma OverlapRoundAt4()
    ensures Rounds(Overlapping, 3, 4, []) == Outcome(["bc", "b", "a"], false)
  {
    var chunk := Chunk(Overlapping, 3, 4, []);
    assert RoundRead(Overlapping, 3, 4) == "\nbc";
    assert chunk == [] + "\n" + "bc";
    SplitLinesAround([], "bc");
    SplitOfLine("bc");
    SplitLinesOfOneLine("bc");
    RoundYields(Overlapping, 3, 4, [], ["", "bc"], []);
    OverlapRoundAt1();
    assert Reverse(["bc"]) == ["bc"];
  }

  /** A size above the chunk size and not a multiple of it: the last read, at
      offset 0, reads a whole chunk again, so the reads overlap and the line
      "b" is yielded on its own although the source line is "bc". */
  lemma OverlappingLastRead()
    ensures ReadTexts("a\nbc", 3, 4) == "a\nb" + "\nbc"
    ensures ReadInReverse("a\nbc", 3) == Outcome(["bc", "b", "a"], false)
    ensures SplitLines("a\nbc") == ["a", "bc"]
  {
    assert RoundRead(Overlapping, 3, 4) == "\nbc";
    assert RoundRead(Overlapping, 3, 1) == "a\nb";
    assert ReadTexts(Overlapping, 3, 0) == [];
    OverlapRoundAt4();
    assert Overlapping == "a" + "\n" + "bc";
    TwoLines("a", "bc");
  }

  /** A source with an empty line whose line feeds sit on either side of
      offset 4, read in chunks of 2. */
  const BlankAcross: string := "x\na\n\nb"

  /** The round at 2 reads "x\n" and prepends it to the carried "a\n". */
  lemma BlankRoundAt2()
    ensures Rounds(BlankAcross, 2, 2, "a\n") == Outcome(["a", "x"], false)
  {
    var chunk := Chunk(BlankAcross, 2, 2, "a\n");
    assert chunk == "x" + "\n" + "a\n";
    SplitLinesAround("x", "a\n");
    SplitOfLine("x");
    SplitLinesOfOneLine("a\n");
    assert "a\n"[..1] == "a";
    RoundYields(BlankAcross, 2, 2, "a\n", ["x", "a"], "x");
    assert Rounds(BlankAcross, 2, 0, "x") == Outcome(["x"], false);
    assert Reverse(["a"]) == ["a"];
  }

  /** The round at 4 reads "a\n", a single line: it yields nothing and
      carries the text with its line feed. */
  lemma BlankRoundAt4()
    ensures Rounds(BlankAcross, 2, 4, []) == Outcome(["a", "x"], false)
  {
    var chunk := Chunk(BlankAcross, 2, 4, []);
    assert chunk == "a\n";
    SplitLinesOfOneLine("a\n");
    assert "a\n"[..1] == "a";
    RoundYields(BlankAcross, 2, 4, [], ["a"], "a\n");
    BlankRoundAt2();
    assert Reverse<string>([]) == [];
  }

  /** The round at 6 reads "\nb": it yields "b" and carries an empty line. */
  lemma BlankRoundAt6()
    ensures Rounds(BlankAcross, 2, 6, []) == Outcome(["b", "a", "x"], false)
  {
    var chunk := Chunk(BlankAcross, 2, 6, []);
    assert chunk == [] + "\n" + "b";
    SplitLinesAround([], "b");
    SplitOfLine("b");
    SplitLinesOfOneLine("b");
    RoundYields(BlankAcross, 2, 6, [], ["", "b"], []);
    BlankRoundAt4();
    assert Reverse(["b"]) == ["b"];
  }

  /** The lines of the source, with the empty one. */
  lemma BlankAcrossLines()
    ensures Reverse(SplitLines(BlankAcross)) == ["b", "", "a", "x"]
  {
    assert BlankAcross == "x" + "\n" + ("a" + "\n" + ("" + "\n" + "b"));
    SplitLinesAround("x", "a\n\nb");
    SplitLinesAround("a", "\nb");
    SplitLinesAround("", "b");
    SplitOfLine("x");
    SplitOfLine("a");
    SplitLinesOfOneLine("b");
    assert Reverse(["x", "a", "", "b"]) == ["b", "", "a", "x"];
  }

  /** Two line feeds around an empty line on either side of a chunk boundary:
      the round above the boundary carries an empty first line, the round
      below reads a chunk ending in a line feed, and `splitlines` drops the
      empty piece that should have been yielded. */
  lemma EmptyLineLostAtBoundary()
    ensures ReadInReverse("x\na\n\nb", 2) == Outcome(["b", "a", "x"], false)
    ensures Reverse(SplitLines("x\na\n\nb")) == ["b", "", "a", "x"]
  {
    BlankRoundAt6();
    BlankAcrossLines();
  }

  /** With the request's default of ten results, both lines of the two-line
      source come back, latest first. */
  lemma DefaultRequest()
    ensures ReadFile("line1\nline2", RequestMaxResults, SettingsMaxResults) == Found(["line2", "line1"])
  {
    SimpleFile();
  }

  /** Asking for one result over the two-line source returns its last line
      only. */
  lemma FirstResultOnly()
    ensures ReadFile("line1\nline2", 1, SettingsMaxResults) == Found(["line2"])
  {
    SimpleFile();
  }
}
