/**
 * The parts of Python's `str` that the modelled helpers rely on:
 * `isspace`, `strip`/`rstrip`, `split(sep)` with an explicit separator,
 * and ASCII upper-casing.
 */
module Text {

  /** Python's `str.isspace()` for one character (the full set of code points it accepts). */
  predicate IsSpace(c: char) {
    || c == ' '
    || ('\t' <= c <= '\r')
    || ('\U{1c}' <= c <= '\U{1f}')
    || c == '\U{85}' || c == '\U{a0}' || c == '\U{1680}'
    || ('\U{2000}' <= c <= '\U{200a}')
    || c == '\U{2028}' || c == '\U{2029}' || c == '\U{202f}' || c == '\U{205f}' || c == '\U{3000}'
  }

  /** `s.rstrip()`: `s` without its trailing whitespace. */
  function RStrip(s: string): (r: string)
    ensures |r| <= |s|
  {
    if s != [] && IsSpace(s[|s| - 1]) then RStrip(s[..|s| - 1]) else s
  }

  /** `RStrip` removes exactly the trailing whitespace: what is left does not end in it. */
  lemma {:induction false} RStripSpaces(s: string)
    ensures var r := RStrip(s);
      && r == s[..|r|]
      && (|r| > 0 ==> !IsSpace(r[|r| - 1]))
      && forall i :: |r| <= i < |s| ==> IsSpace(s[i])
  {
    if s != [] && IsSpace(s[|s| - 1]) {
      RStripSpaces(s[..|s| - 1]);
    }
  }

  /** `s.lstrip()`: `s` without its leading whitespace. */
  function LStrip(s: string): (r: string)
    ensures |r| <= |s|
  {
    if s != [] && IsSpace(s[0]) then LStrip(s[1..]) else s
  }

  /** `LStrip` removes exactly the leading whitespace: what is left does not start with it. */
  lemma {:induction false} LStripSpaces(s: string)
    ensures var r := LStrip(s);
      && r == s[|s| - |r|..]
      && (|r| > 0 ==> !IsSpace(r[0]))
      && forall i :: 0 <= i < |s| - |r| ==> IsSpace(s[i])
  {
    if s != [] && IsSpace(s[0]) {
      LStripSpaces(s[1..]);
      assert forall i :: 1 <= i < |s| ==> s[1..][i - 1] == s[i];
    }
  }

  /** `s.strip()`: `s` without leading and trailing whitespace. */
  function Strip(s: string): (r: string)
    ensures |r| <= |s|
  {
    LStrip(RStrip(s))
  }

  /** The stripped string neither starts nor ends with whitespace, and is empty exactly for all-whitespace input. */
  lemma StripSpaces(s: string)
    ensures var r := Strip(s);
      && (|r| > 0 ==> !IsSpace(r[0]) && !IsSpace(r[|r| - 1]))
      && (r == [] <==> forall i :: 0 <= i < |s| ==> IsSpace(s[i]))
  {
    var t := RStrip(s);
    var r := LStrip(t);
    RStripSpaces(s);
    LStripSpaces(t);
    if r != [] {
      assert r[|r| - 1] == t[|t| - 1];
      assert r[0] == s[|t| - |r|];
    }
  }

  lemma StripIdempotent(s: string)
    ensures Strip(Strip(s)) == Strip(s)
  {
    var r := Strip(s);
    StripSpaces(s);
    if r != [] {
      assert RStrip(r) == r;
      assert LStrip(r) == r;
    }
  }

  /** `s.split(sep)`: the fields between occurrences of `sep`, always at least one. */
  function Split(s: string, sep: char): (fields: seq<string>)
    ensures |fields| >= 1
  {
    if s == [] then [[]]
    else
      var rest := Split(s[1..], sep);
      if s[0] == sep then [[]] + rest else [[s[0]] + rest[0]] + rest[1..]
  }

  /** There is one field more than there are separators, and no field holds a separator. */
  lemma {:induction false} SplitFields(s: string, sep: char)
    ensures var fields := Split(s, sep);
      && |fields| == multiset(s)[sep] + 1
      && forall k :: 0 <= k < |fields| ==> sep !in fields[k]
  {
    if s != [] {
      var rest := Split(s[1..], sep);
      SplitFields(s[1..], sep);
      assert s == [s[0]] + s[1..];
      assert multiset(s) == multiset{s[0]} + multiset(s[1..]);
      var fields := Split(s, sep);
      if s[0] == sep {
        assert forall k :: 1 <= k < |fields| ==> fields[k] == rest[k - 1];
      } else {
        assert forall k :: 1 <= k < |fields| ==> fields[k] == rest[k];
        assert fields[0] == [s[0]] + rest[0];
      }
    }
  }

  /** `sep.join(fields)`. */
  function Join(fields: seq<string>, sep: char): string {
    if fields == [] then []
    else if |fields| == 1 then fields[0]
    else fields[0] + [sep] + Join(fields[1..], sep)
  }

  /** A character in front of the first field goes in front of the joined string. */
  lemma JoinConsFirst(c: char, f: string, fs: seq<string>, sep: char)
    ensures Join([[c] + f] + fs, sep) == [c] + Join([f] + fs, sep)
  {
    assert ([[c] + f] + fs)[1..] == fs && ([f] + fs)[1..] == fs;
  }

  lemma {:induction false} JoinSplit(s: string, sep: char)
    ensures Join(Split(s, sep), sep) == s
  {
    if s != [] {
      var rest := Split(s[1..], sep);
      JoinSplit(s[1..], sep);
      if s[0] == sep {
        assert ([[]] + rest)[1..] == rest;
      } else {
        JoinConsFirst(s[0], rest[0], rest[1..], sep);
        assert [rest[0]] + rest[1..] == rest;
      }
      assert s == [s[0]] + s[1..];
    }
  }

  /** A prefix without separators joins the first field. */
  lemma {:induction false} SplitPrefix(f: string, t: string, sep: char)
    requires sep !in f
    ensures Split(f + t, sep) == [f + Split(t, sep)[0]] + Split(t, sep)[1..]
  {
    if f == [] {
      assert f + t == t;
      var r := Split(t, sep);
      assert [] + r[0] == r[0];
      assert [r[0]] + r[1..] == r;
    } else {
      var r := Split(t, sep);
      assert f[0] in f && f[0] != sep;
      assert sep !in f[1..] by {
        assert forall i :: 0 <= i < |f| - 1 ==> f[1..][i] == f[i + 1];
      }
      SplitPrefix(f[1..], t, sep);
      assert (f + t)[0] == f[0] && (f + t)[1..] == f[1..] + t;
      var rest := Split(f[1..] + t, sep);
      assert rest == [f[1..] + r[0]] + r[1..];
      assert Split(f + t, sep) == [[f[0]] + rest[0]] + rest[1..];
      assert [f[0]] + (f[1..] + r[0]) == f + r[0];
    }
  }

  lemma {:induction false} SplitJoin(fields: seq<string>, sep: char)
    requires |fields| >= 1
    requires forall k :: 0 <= k < |fields| ==> sep !in fields[k]
    ensures Split(Join(fields, sep), sep) == fields
  {
    if |fields| == 1 {
      SplitPrefix(fields[0], [], sep);
      assert fields[0] + [] == fields[0];
    } else {
      var rest := Join(fields[1..], sep);
      SplitJoin(fields[1..], sep);
      SplitPrefix(fields[0], [sep] + rest, sep);
      assert fields[0] + [sep] + rest == fields[0] + ([sep] + rest);
      assert ([sep] + rest)[1..] == rest;
      assert Split([sep] + rest, sep) == [[]] + fields[1..];
      assert fields[0] + [] == fields[0];
      assert [fields[0]] + fields[1..] == fields;
    }
  }

  /** Python's `str.upper()` on the ASCII range; other characters are kept. */
  function UpperAscii(c: char): (u: char)
    ensures 'A' <= u <= 'Z' <==> ('A' <= c <= 'Z' || 'a' <= c <= 'z')
    ensures u == 'N' <==> c == 'N' || c == 'n'
  {
    if 'a' <= c <= 'z' then (c as int - 32) as char else c
  }

  function Upper(s: string): (u: string)
    ensures |u| == |s|
    ensures forall i :: 0 <= i < |s| ==> u[i] == UpperAscii(s[i])
  {
    if s == [] then [] else [UpperAscii(s[0])] + Upper(s[1..])
  }
}
