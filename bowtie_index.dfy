/**
 * `detect_bowtie_index_name` (utils.py): the base names a Bowtie2 index of
 * a reference FASTA may have, tried in order. A path is held as `pathlib`
 * holds it once parsed, its directory part and its name, with the
 * `pathlib` rules for `suffix` and `with_suffix("")`; which index files
 * exist is given as a set.
 */
module BowtieIndex {
  import opened Wrappers
  import opened Grouping

  /** `s.rfind(c)`: the last index of `c` in `s`, or -1. */
  function RFind(s: string, c: char): (i: int)
    ensures -1 <= i < |s|
  {
    if s == [] then -1
    else if s[|s| - 1] == c then |s| - 1
    else RFind(s[..|s| - 1], c)
  }

  /** `RFind` finds the last occurrence: the character there is `c` and none after it is. */
  lemma {:induction false} RFindSpec(s: string, c: char)
    ensures var i := RFind(s, c);
      && (i >= 0 ==> s[i] == c)
      && forall j :: i < j < |s| ==> s[j] != c
  {
    if s != [] && s[|s| - 1] != c {
      var init := s[..|s| - 1];
      RFindSpec(init, c);
      assert forall j :: 0 <= j < |init| ==> init[j] == s[j];
    }
  }

  /** The last `c` of a string is the end of a prefix that ends in `c`, when the rest has none. */
  lemma {:induction false} RFindAfter(prefix: string, rest: string, c: char)
    requires c !in rest
    requires prefix == [] || prefix[|prefix| - 1] == c
    ensures RFind(prefix + rest, c) == |prefix| - 1
  {
    if rest == [] {
      assert prefix + rest == prefix;
    } else {
      var init := rest[..|rest| - 1];
      assert rest[|rest| - 1] in rest;
      assert (prefix + rest)[..|prefix + rest| - 1] == prefix + init;
      RFindAfter(prefix, init, c);
    }
  }

  /**
   * A parsed path: its directory part as text, with its trailing separator
   * (empty for a bare file name), and its last component, `Path.name`.
   */
  datatype Path = Path(parent: string, name: string)

  /** `str(path)`. */
  function Text(p: Path): string {
    p.parent + p.name
  }

  /** The directory part of a path's text: everything up to its last separator. */
  function DirectoryOf(s: string): string {
    if s == [] || Last(s) == '/' then s else DirectoryOf(Init(s))
  }

  /** The name in a path's text: everything after its last separator. */
  function NameOf(s: string): string {
    if s == [] || Last(s) == '/' then [] else NameOf(Init(s)) + [Last(s)]
  }

  /** `Path(s)`. */
  function PathOf(s: string): Path {
    Path(DirectoryOf(s), NameOf(s))
  }

  /** A well-formed path: a directory part ending in a separator, then a name without one. */
  predicate ValidPath(p: Path) {
    (p.parent == [] || Last(p.parent) == '/') && '/' !in p.name
  }

  /** Parsing splits the text at its last separator, and the text comes back unchanged. */
  lemma {:induction false} PathOfSpec(s: string)
    ensures ValidPath(PathOf(s)) && Text(PathOf(s)) == s
  {
    if s != [] && Last(s) != '/' {
      PathOfSpec(Init(s));
      assert s == Init(s) + [Last(s)];
    } else {
      assert s + [] == s;
    }
  }

  /** A directory part followed by a name without separators parses back into the two. */
  lemma {:induction false} PathOfJoin(dir: string, name: string)
    requires ValidPath(Path(dir, name))
    ensures PathOf(dir + name) == Path(dir, name)
  {
    if name == [] {
      assert dir + name == dir;
    } else {
      assert name == Init(name) + [Last(name)];
      PathOfJoin(dir, Init(name));
      assert dir + name == (dir + Init(name)) + [Last(name)];
    }
  }

  /**
   * `Path.suffix`: the name from its last dot on, unless that dot is the
   * first or the last character of the name.
   */
  function Suffix(p: Path): string {
    var i := RFind(p.name, '.');
    if 0 < i < |p.name| - 1 then p.name[i..] else ""
  }

  /** `path.with_suffix("")` for a path that has a suffix: the name loses its suffix. */
  function WithoutSuffix(p: Path): Path
    requires Suffix(p) != ""
  {
    Path(p.parent, p.name[..|p.name| - |Suffix(p)|])
  }

  /**
   * A suffix is a dot followed by at least one character, with no further
   * dot, and something is left of the name in front of it.
   */
  lemma SuffixIsLastDot(p: Path)
    requires Suffix(p) != ""
    ensures var s := Suffix(p);
      && |s| >= 2 && s[0] == '.'
      && (forall j :: 0 < j < |s| ==> s[j] != '.')
      && |s| < |p.name|
  {
    RFindSpec(p.name, '.');
    var i := RFind(p.name, '.');
    assert forall j :: 0 <= j < |Suffix(p)| ==> Suffix(p)[j] == p.name[i + j];
  }

  /** Dropping the suffix keeps the directory, leaves a non-empty name, and the suffix appended gives the name back. */
  lemma WithoutSuffixParts(p: Path)
    requires Suffix(p) != ""
    ensures var q := WithoutSuffix(p);
      && q.parent == p.parent
      && q.name + Suffix(p) == p.name
      && q.name != []
      && Text(q) + Suffix(p) == Text(p)
      && (ValidPath(p) ==> ValidPath(q))
  {
    var q, s := WithoutSuffix(p), Suffix(p);
    SuffixIsLastDot(p);
    assert q.name + s == p.name;
    assert Text(q) + s == p.parent + (q.name + s);
    if ValidPath(p) {
      assert forall j :: 0 <= j < |q.name| ==> q.name[j] == p.name[j] && p.name[j] in p.name;
    }
  }

  /** The candidate base names, in the order they are tried. */
  function CandidatesOf(p: Path): (bases: seq<Path>)
    ensures bases != []
  {
    if Suffix(p) == ".gz" then
      var q := WithoutSuffix(p);
      if Suffix(q) != "" then [p, q, WithoutSuffix(q)] else [p, q]
    else if Suffix(p) != "" then [p, WithoutSuffix(p)]
    else [p]
  }

  /** The error raised when no candidate has an index: the `.1.bt2` file names that were expected. */
  datatype IndexNotFound = IndexNotFound(expected: seq<string>)

  const IndexExtension := ".1.bt2"

  /** `base.with_name(base.name + ".1.bt2")`, as text. */
  function IndexFile(base: Path): string {
    Text(Path(base.parent, base.name + IndexExtension))
  }

  function IndexFiles(bases: seq<Path>): (files: seq<string>)
    ensures |files| == |bases|
    ensures forall k :: 0 <= k < |bases| ==> files[k] == IndexFile(bases[k])
  {
    if bases == [] then [] else [IndexFile(bases[0])] + IndexFiles(bases[1..])
  }

  /** The candidate list of `detect_bowtie_index_name`, built by appending. */
  method BowtieIndexCandidates(path: Path) returns (bases: seq<Path>)
    ensures bases == CandidatesOf(path)
  {
    bases := [path];
    if Suffix(path) == ".gz" {
      bases := bases + [WithoutSuffix(path)];
    }
    var last := bases[|bases| - 1];
    if Suffix(last) != "" {
      bases := bases + [WithoutSuffix(last)];
    }
  }

  /**
   * `detect_bowtie_index_name(fasta_path)`, where `existing` holds the files
   * that exist: the first candidate whose index file exists.
   */
  method DetectBowtieIndexName(fastaPath: string, existing: set<string>) returns (r: Result<Path, IndexNotFound>)
    ensures var bases := CandidatesOf(PathOf(fastaPath));
      && (r.Ok? <==> exists k :: 0 <= k < |bases| && IndexFile(bases[k]) in existing)
      && (r.Ok? ==> exists k :: 0 <= k < |bases| && r.value == bases[k] && IndexFile(bases[k]) in existing
                      && forall j :: 0 <= j < k ==> IndexFile(bases[j]) !in existing)
      && (r.Err? ==> r.error == IndexNotFound(IndexFiles(bases)))
  {
    var bases := BowtieIndexCandidates(PathOf(fastaPath));
    for k := 0 to |bases|
      invariant forall j :: 0 <= j < k ==> IndexFile(bases[j]) !in existing
    {
      if IndexFile(bases[k]) in existing {
        return Ok(bases[k]);
      }
    }
    return Err(IndexNotFound(IndexFiles(bases)));
  }

  lemma WithoutSuffixShorter(p: Path)
    requires Suffix(p) != ""
    ensures |WithoutSuffix(p).name| < |p.name|
  {
    SuffixIsLastDot(p);
  }

  /** Each candidate after the first is the previous one without its suffix. */
  lemma CandidatesChain(p: Path)
    ensures var bases := CandidatesOf(p);
      forall k :: 0 <= k < |bases| - 1 ==> Suffix(bases[k]) != "" && bases[k + 1] == WithoutSuffix(bases[k])
  {
    var bases := CandidatesOf(p);
    if Suffix(p) == "" {
      assert |bases| == 1;
    } else {
      var q := WithoutSuffix(p);
      assert bases[0] == p && bases[1] == q;
      if |bases| == 3 {
        assert Suffix(q) != "" && bases[2] == WithoutSuffix(q);
      }
    }
  }

  /** All candidates share the directory of the path; each name is shorter than the one before. */
  lemma CandidatesShrink(p: Path)
    ensures var bases := CandidatesOf(p);
      && (forall k :: 0 <= k < |bases| ==> bases[k].parent == p.parent)
      && (forall k :: 0 <= k < |bases| - 1 ==> |bases[k + 1].name| < |bases[k].name|)
  {
    var bases := CandidatesOf(p);
    if Suffix(p) == "" {
      assert |bases| == 1;
    } else {
      var q := WithoutSuffix(p);
      WithoutSuffixShorter(p);
      assert bases[0] == p && bases[1] == q;
      if |bases| == 3 {
        assert Suffix(q) != "" && bases[2] == WithoutSuffix(q);
        WithoutSuffixShorter(q);
      }
    }
  }

  /** None is tried twice. */
  lemma CandidatesDistinct(p: Path)
    ensures NoDup(CandidatesOf(p))
  {
    CandidatesShrink(p);
    ShrinkingDistinct(CandidatesOf(p));
  }

  /** Paths whose names get shorter one after the other are all different. */
  lemma {:induction false} ShrinkingDistinct(ps: seq<Path>)
    requires forall k :: 0 <= k < |ps| - 1 ==> |ps[k + 1].name| < |ps[k].name|
    ensures forall i, j :: 0 <= i < j < |ps| ==> |ps[j].name| < |ps[i].name|
    ensures NoDup(ps)
  {
    if |ps| > 1 {
      var rest := ps[1..];
      assert forall i :: 0 <= i < |rest| ==> rest[i] == ps[i + 1];
      ShrinkingDistinct(rest);
      forall i, j | 0 <= i < j < |ps|
        ensures |ps[j].name| < |ps[i].name|
      {
        if 0 < i {
          assert ps[i] == rest[i - 1] && ps[j] == rest[j - 1];
        } else if 1 < j {
          assert ps[1] == rest[0] && ps[j] == rest[j - 1];
        }
      }
    }
  }

  /**
   * The path itself is tried first. At most three candidates: one when the
   * path has no suffix, and a third only after a `.gz` suffix when what is
   * left still has a suffix.
   */
  lemma CandidatesCount(p: Path)
    ensures var bases := CandidatesOf(p);
      && bases[0] == p
      && 1 <= |bases| <= 3
      && (|bases| == 3 <==> Suffix(p) == ".gz" && Suffix(WithoutSuffix(p)) != "")
      && (|bases| == 1 <==> Suffix(p) == "")
  {
  }

  lemma GzSuffix()
    ensures Suffix(Path("", "ref.fasta.gz")) == ".gz"
    ensures WithoutSuffix(Path("", "ref.fasta.gz")) == Path("", "ref.fasta")
  {
    RFindAfter("ref.fasta.", "gz", '.');
    assert "ref.fasta." + "gz" == "ref.fasta.gz";
    assert "ref.fasta.gz"[9..] == ".gz" && "ref.fasta.gz"[..9] == "ref.fasta";
  }

  lemma FastaSuffix()
    ensures Suffix(Path("", "ref.fasta")) == ".fasta"
    ensures WithoutSuffix(Path("", "ref.fasta")) == Path("", "ref")
  {
    RFindAfter("ref.", "fasta", '.');
    assert "ref." + "fasta" == "ref.fasta";
    assert "ref.fasta"[3..] == ".fasta" && "ref.fasta"[..3] == "ref";
  }

  /** Example from the documentation of `detect_bowtie_index_name`. */
  lemma CompressedFastaCandidates()
    ensures CandidatesOf(PathOf("ref.fasta.gz")) == [Path("", "ref.fasta.gz"), Path("", "ref.fasta"), Path("", "ref")]
  {
    PathOfJoin("", "ref.fasta.gz");
    assert "" + "ref.fasta.gz" == "ref.fasta.gz";
    GzSuffix();
    FastaSuffix();
  }

  /** A dot in a directory name is no suffix. */
  lemma DottedDirectoryCandidates()
    ensures CandidatesOf(PathOf("genome.v2/ref")) == [Path("genome.v2/", "ref")]
  {
    var p := Path("genome.v2/", "ref");
    PathOfJoin("genome.v2/", "ref");
    assert "genome.v2/" + "ref" == "genome.v2/ref";
    assert RFind(p.name, '.') == -1 by {
      RFindAfter("", "ref", '.');
      assert "" + "ref" == "ref";
    }
    assert Suffix(p) == "";
  }

  /** A name that starts with its only dot has no suffix either. */
  lemma HiddenFileCandidates()
    ensures CandidatesOf(PathOf(".fa")) == [Path("", ".fa")]
  {
    var p := Path("", ".fa");
    PathOfJoin("", ".fa");
    assert "" + ".fa" == ".fa";
    assert RFind(p.name, '.') == 0 by {
      RFindAfter(".", "fa", '.');
      assert "." + "fa" == ".fa";
    }
    assert Suffix(p) == "";
  }
}
