/**
 * `compute_genome_size` (utils.py): the number of bases of a FASTA file
 * that are not `N`, header lines excluded. The file is given as its
 * sequence of lines, each with its line terminator.
 */
module GenomeSize {
  import opened Text
  import opened Grouping

  /** `s.count(c)` for a single character. */
  function Count(s: string, c: char): (n: nat)
    ensures n <= |s|
  {
    if s == [] then 0 else (if s[0] == c then 1 else 0) + Count(s[1..], c)
  }

  /** A line whose first character is `>` (`line[:1] == ">"`); an empty line is not one. */
  predicate IsHeader(line: string) {
    |line| > 0 && line[0] == '>'
  }

  /** What one sequence line adds: its length without trailing whitespace, less its `N`s after upper-casing. */
  function LineBases(line: string): nat {
    var u := Upper(RStrip(line));
    |u| - Count(u, 'N')
  }

  /** The genome size of the lines read so far. */
  function GenomeSizeOf(lines: seq<string>): nat {
    if lines == [] then 0
    else GenomeSizeOf(Init(lines)) + (if IsHeader(Last(lines)) then 0 else LineBases(Last(lines)))
  }

  /** `compute_genome_size` over the lines of the FASTA file. */
  method ComputeGenomeSize(lines: seq<string>) returns (n: nat)
    ensures n == GenomeSizeOf(lines)
  {
    n := 0;
    for i := 0 to |lines|
      invariant n == GenomeSizeOf(lines[..i])
    {
      assert Init(lines[..i + 1]) == lines[..i] && Last(lines[..i + 1]) == lines[i];
      var line := lines[i];
      if !IsHeader(line) {
        var u := Upper(RStrip(line));
        n := n + |u| - Count(u, 'N');
      }
    }
    assert lines[..|lines|] == lines;
  }

  /** The characters of `s` other than `n` and `N`. */
  function NotN(s: string): nat {
    if s == [] then 0 else (if s[0] == 'N' || s[0] == 'n' then 0 else 1) + NotN(s[1..])
  }

  lemma {:induction false} UpperCount(s: string)
    ensures |Upper(s)| - Count(Upper(s), 'N') == NotN(s)
  {
    if s != [] {
      UpperCount(s[1..]);
      assert Upper(s)[1..] == Upper(s[1..]);
    }
  }

  /** A sequence line counts each character before its trailing whitespace that is not `n` or `N`. */
  lemma LineBasesAreNotN(line: string)
    ensures LineBases(line) == NotN(RStrip(line))
  {
    UpperCount(RStrip(line));
  }

  /** The size of two pieces of a file is the sum of their sizes. */
  lemma {:induction false} GenomeSizeAppend(a: seq<string>, b: seq<string>)
    ensures GenomeSizeOf(a + b) == GenomeSizeOf(a) + GenomeSizeOf(b)
  {
    if b == [] {
      assert a + b == a;
    } else {
      GenomeSizeAppend(a, Init(b));
      assert Init(a + b) == a + Init(b) && Last(a + b) == Last(b);
    }
  }

  /** The total length of the lines that are not headers. */
  function SequenceLength(lines: seq<string>): nat {
    if lines == [] then 0
    else SequenceLength(Init(lines)) + (if IsHeader(Last(lines)) then 0 else |Last(lines)|)
  }

  lemma {:induction false} NotNAtMostLength(s: string)
    ensures NotN(s) <= |s|
  {
    if s != [] {
      NotNAtMostLength(s[1..]);
    }
  }

  /** The genome size is at most the length of the sequence lines. */
  lemma {:induction false} GenomeSizeAtMostLength(lines: seq<string>)
    ensures GenomeSizeOf(lines) <= SequenceLength(lines)
  {
    if lines != [] {
      GenomeSizeAtMostLength(Init(lines));
      var line := Last(lines);
      LineBasesAreNotN(line);
      NotNAtMostLength(RStrip(line));
    }
  }

  /** Example: a header, then `ACGTN` and `nnac` (the latter lower-case), give 4 + 2 bases. */
  lemma GenomeSizeExample()
    ensures GenomeSizeOf([">chr1\n", "ACGTN\n", "nnac\n"]) == 6
  {
    var l0, l1, l2 := ">chr1\n", "ACGTN\n", "nnac\n";
    assert [l0, l1, l2] == [l0] + [l1] + [l2];
    GenomeSizeAppend([l0] + [l1], [l2]);
    GenomeSizeAppend([l0], [l1]);
    assert Init([l0]) == [] && Init([l1]) == [] && Init([l2]) == [];
    SequenceLineBases();
    LowerCaseLineBases();
  }

  lemma SequenceLineBases()
    ensures LineBases("ACGTN\n") == 4
  {
    assert RStrip("ACGTN\n") == "ACGTN" by {
      assert "ACGTN\n"[..5] == "ACGTN";
    }
    LineBasesAreNotN("ACGTN\n");
  }

  lemma LowerCaseLineBases()
    ensures LineBases("nnac\n") == 2
  {
    assert RStrip("nnac\n") == "nnac" by {
      assert "nnac\n"[..4] == "nnac";
    }
    LineBasesAreNotN("nnac\n");
  }
}
