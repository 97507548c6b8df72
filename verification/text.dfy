/**
 * Text helpers of the logger: `skip_path`, which keeps the file name of a
 * path, and `line_builder`, which joins the parts of a log message with
 * single spaces.
 */
module Text {
  import opened Base

  /** Index of the first `c` in `s`, or `|s|` when there is none (`find`). */
  function Find(s: string, c: char): (k: nat)
    ensures k <= |s|
    ensures forall j :: 0 <= j < k ==> s[j] != c
    ensures k < |s| ==> s[k] == c
  {
    if s == [] || s[0] == c then 0 else 1 + Find(s[1..], c)
  }

  /** `skip_path`: repeatedly drops everything up to and including the first `/`. */
  function SkipPath(path: string): (r: string)
    ensures IsSuffix(r, path)
    ensures '/' !in r
    decreases |path|
  {
    var p := Find(path, '/');
    if p == |path| then path
    else
      var r := SkipPath(path[p + 1..]);
      SliceSuffix(path, p + 1);
      SuffixTransitive(r, path[p + 1..], path);
      r
  }

  /** Reference: the text after the last `/`, or all of it. */
  function AfterLastSlash(path: string): (r: string)
    decreases |path|
  {
    if path == [] then []
    else if path[|path| - 1] == '/' then []
    else AfterLastSlash(path[..|path| - 1]) + [path[|path| - 1]]
  }

  lemma AfterLastSlashFacts(path: string)
    ensures IsSuffix(AfterLastSlash(path), path)
    ensures '/' !in AfterLastSlash(path)
    ensures '/' !in path ==> AfterLastSlash(path) == path
  {
    if path != [] && path[|path| - 1] != '/' {
      var n := |path| - 1;
      AfterLastSlashFacts(path[..n]);
      assert path[..n] + [path[n]] == path;
    }
  }

  /** Dropping a prefix that ends in `/` does not change what follows the last `/`. */
  lemma {:induction false} AfterLastSlashDrop(path: string, p: nat)
    requires p < |path| && path[p] == '/'
    ensures AfterLastSlash(path) == AfterLastSlash(path[p + 1..])
    decreases |path|
  {
    var n := |path| - 1;
    if n == p {
      assert path[p + 1..] == [];
    } else if path[n] == '/' {
    } else {
      AfterLastSlashDrop(path[..n], p);
      assert path[..n][p + 1..] == path[p + 1..][..|path[p + 1..]| - 1];
    }
  }

  /** The loop of `skip_path` computes the file name after the last `/`. */
  lemma {:induction false} SkipPathIsAfterLastSlash(path: string)
    ensures SkipPath(path) == AfterLastSlash(path)
    decreases |path|
  {
    var p := Find(path, '/');
    if p == |path| {
      SkipPathNoSlash(path);
    } else {
      SkipPathStep(path, p);
      AfterLastSlashDrop(path, p);
      SkipPathIsAfterLastSlash(path[p + 1..]);
    }
  }

  /** A path without `/` is its own file name. */
  lemma SkipPathNoSlash(path: string)
    requires Find(path, '/') == |path|
    ensures SkipPath(path) == path == AfterLastSlash(path)
  {
    AfterLastSlashFacts(path);
  }

  /** One round of the loop: drop up to and including the first `/`. */
  lemma SkipPathStep(path: string, p: nat)
    requires p == Find(path, '/') && p < |path|
    ensures SkipPath(path) == SkipPath(path[p + 1..])
  {
  }

  /** The result is a suffix of the path without any `/`, and skipping again changes nothing. */
  lemma SkipPathProperties(path: string)
    ensures IsSuffix(SkipPath(path), path)
    ensures '/' !in SkipPath(path)
    ensures SkipPath(SkipPath(path)) == SkipPath(path)
  {
    SkipPathIsAfterLastSlash(path);
    AfterLastSlashFacts(path);
    SkipPathIsAfterLastSlash(SkipPath(path));
    AfterLastSlashFacts(SkipPath(path));
  }

  /** `line_builder << piece` for a string view: a separating space unless one is already there. */
  function Append(line: string, piece: string): (r: string)
    ensures line == [] ==> r == piece
    ensures line != [] && line[|line| - 1] != ' ' ==> r == line + " " + piece
    ensures line != [] && line[|line| - 1] == ' ' ==> r == line + piece
  {
    if line != [] && line[|line| - 1] != ' ' then line + " " + piece else line + piece
  }

  /** The C-string view of `s`: everything before the first NUL. */
  function CString(s: string): (r: string)
    ensures '\0' !in r
    ensures IsPrefix(r, s)
    ensures |r| < |s| ==> s[|r|] == '\0'
    ensures '\0' !in s ==> r == s
  {
    s[..Find(s, '\0')]
  }

  predicate IsPrefix(r: string, s: string) {
    |r| <= |s| && s[..|r|] == r
  }

  /** `line_builder << str` for a `std::string`, which goes through `c_str()`. */
  function AppendString(line: string, str: string): (r: string)
    ensures IsPrefix(line, r)
    ensures '\0' !in str ==> r == Append(line, str)
    ensures '\0' !in line ==> '\0' !in r
  {
    Append(line, CString(str))
  }

  /** `line_builder << x` for a character, which goes through a one-character C string. */
  function AppendChar(line: string, x: char): (r: string)
    ensures x != '\0' ==> r == Append(line, [x])
    ensures x == '\0' ==> r == Append(line, "")
  {
    AppendString(line, [x])
  }

  /** A line built by appending `pieces` to an empty builder. */
  function Build(pieces: seq<string>): (r: string)
    ensures pieces != [] ==> IsPrefix(pieces[0], r) && IsSuffix(pieces[|pieces| - 1], r)
  {
    if pieces == [] then ""
    else
      var init := Build(pieces[..|pieces| - 1]);
      var last := pieces[|pieces| - 1];
      var r := Append(init, last);
      assert r[|r| - |last|..] == last;
      assert |pieces| > 1 ==> pieces[..|pieces| - 1][0] == pieces[0] && r[..|init|] == init;
      r
  }

  /** Reference: the pieces joined by single spaces. */
  function JoinSpace(pieces: seq<string>): string {
    if pieces == [] then ""
    else if |pieces| == 1 then pieces[0]
    else JoinSpace(pieces[..|pieces| - 1]) + " " + pieces[|pieces| - 1]
  }

  /** Pieces that neither are empty nor end in a space. */
  predicate Plain(pieces: seq<string>) {
    forall i :: 0 <= i < |pieces| ==> pieces[i] != [] && pieces[i][|pieces[i]| - 1] != ' '
  }

  /** For plain pieces the builder is a space-join. */
  lemma {:induction false} BuildIsJoinSpace(pieces: seq<string>)
    requires Plain(pieces)
    ensures Build(pieces) == JoinSpace(pieces)
    ensures pieces != [] ==> Build(pieces) != [] && Build(pieces)[|Build(pieces)| - 1] != ' '
    decreases |pieces|
  {
    if pieces != [] {
      var n := |pieces| - 1;
      var init := pieces[..n];
      assert Plain(init);
      BuildIsJoinSpace(init);
      var last := pieces[n];
      assert last != [] && last[|last| - 1] != ' ';
      if n > 0 {
        var b := Build(init);
        assert b != [] && b[|b| - 1] != ' ';
        assert (b + " " + last)[|b + " " + last| - 1] == last[|last| - 1];
      }
    }
  }

  /** A piece that ends in a space is followed directly, without a second space. */
  lemma NoDoubleSeparator(line: string, piece: string)
    requires line != [] && line[|line| - 1] == ' '
    ensures Append(line, piece) == line + piece
  {
  }
}
