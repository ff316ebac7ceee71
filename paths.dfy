/**
 * The JavaScript string operations the board server relies on (`lastIndexOf`, `slice`,
 * `split`, `join`, `startsWith`) and the way the operating system resolves a path string
 * into the sequence of its components.
 */
module Paths {

  /** `s.lastIndexOf(c)` for a one-character needle: -1 when `c` does not occur. */
  function LastIndexOf(s: string, c: char): (i: int)
    ensures -1 <= i < |s|
    ensures i >= 0 ==> s[i] == c
    ensures forall j :: i < j < |s| ==> s[j] != c
    ensures i == -1 <==> c !in s
  {
    if |s| == 0 then -1
    else if s[|s| - 1] == c then |s| - 1
    else LastIndexOf(s[..|s| - 1], c)
  }

  /** How `String.prototype.slice` turns an index into a position: negative ones count from the end. */
  function SliceIndex(i: int, n: nat): (k: nat)
    ensures k <= n
    ensures 0 <= i <= n ==> k == i
    ensures i < 0 && 0 <= n + i ==> k == n + i
  {
    if i < 0 then (if n + i < 0 then 0 else n + i)
    else if i > n then n
    else i
  }

  /** `s.slice(start, end)`. */
  function Slice(s: string, start: int, end: int): (r: string)
    ensures |r| <= |s|
    ensures 0 <= start <= end <= |s| ==> r == s[start..end]
    ensures 0 <= end <= start ==> r == []
    ensures start == 0 && end == -1 && |s| > 0 ==> r == s[..|s| - 1]
  {
    var from, to := SliceIndex(start, |s|), SliceIndex(end, |s|);
    if from < to then s[from..to] else []
  }

  /**
   * The helper `splitByLastSlash` (identical in rooms.ts and assets.ts):
   * `[input.slice(0, i), input.slice(i + 1)]` with `i = input.lastIndexOf('/')`.
   * With a slash, the two halves rebuild the input around its last slash; without one,
   * `i == -1`, so the folder part is the input minus its last character and the leaf is the input.
   */
  function SplitByLastSlash(input: string): (r: (string, string))
    ensures '/' in input ==> r.0 + "/" + r.1 == input && '/' !in r.1
    ensures '/' in input ==> r.0 == input[..LastIndexOf(input, '/')]
    ensures '/' !in input ==> r.1 == input && r.0 == (if input == [] then [] else input[..|input| - 1])
  {
    var i := LastIndexOf(input, '/');
    var r := (Slice(input, 0, i), Slice(input, i + 1, |input|));
    assert i >= 0 ==> r.0 == input[..i] && r.1 == input[i + 1..] && input == input[..i] + "/" + input[i + 1..];
    assert i < 0 ==> r.1 == input;
    r
  }

  /** The split undoes joining around a slash: a leaf without slashes comes back with its folder part. */
  lemma SplitByLastSlashInverse(folder: string, leaf: string)
    requires '/' !in leaf
    ensures SplitByLastSlash(folder + "/" + leaf) == (folder, leaf)
  {
    var s := folder + "/" + leaf;
    var i := LastIndexOf(s, '/');
    assert s[|folder|] == '/';
    assert forall j :: |folder| < j < |s| ==> s[j] == leaf[j - |folder| - 1];
    assert i == |folder|;
    assert s[..|folder|] == folder && s[|folder| + 1..] == leaf;
  }

  /** `s.startsWith(prefix)`. */
  predicate StartsWith(s: string, prefix: string) {
    |prefix| <= |s| && s[..|prefix|] == prefix
  }

  /** `parts.join(sep)` for a one-character separator. */
  function Join(parts: seq<string>, sep: char): (s: string)
    ensures |parts| == 1 ==> s == parts[0]
  {
    if |parts| == 0 then []
    else if |parts| == 1 then parts[0]
    else Join(parts[..|parts| - 1], sep) + [sep] + parts[|parts| - 1]
  }

  /** Joining one more part adds a separator and that part. */
  lemma JoinAppend(parts: seq<string>, last: string, sep: char)
    requires |parts| >= 1
    ensures Join(parts + [last], sep) == Join(parts, sep) + [sep] + last
  {
    assert (parts + [last])[..|parts|] == parts;
  }

  /**
   * `s.split(sep)` for a one-character separator: at least one part, no part holds the
   * separator, there is one part more than there are separators, and joining gives `s` back.
   */
  function Split(s: string, sep: char): (parts: seq<string>)
    ensures |parts| >= 1
    ensures forall k :: 0 <= k < |parts| ==> sep !in parts[k]
    ensures |parts| == 1 <==> sep !in s
    ensures Join(parts, sep) == s
    decreases |s|
  {
    var i := LastIndexOf(s, sep);
    if i < 0 then [s]
    else
      var head, last := Split(s[..i], sep), s[i + 1..];
      assert s == s[..i] + [sep] + last;
      JoinAppend(head, last, sep);
      head + [last]
  }

  /** Splitting a joined sequence of separator-free parts gives the parts back. */
  lemma {:induction false} SplitJoin(parts: seq<string>, sep: char)
    requires |parts| >= 1
    requires forall k :: 0 <= k < |parts| ==> sep !in parts[k]
    ensures Split(Join(parts, sep), sep) == parts
  {
    if |parts| > 1 {
      var init, last := parts[..|parts| - 1], parts[|parts| - 1];
      assert parts == init + [last];
      assert Join(parts, sep) == Join(init, sep) + [sep] + last;
      SplitJoin(init, sep);
      SplitAppend(Join(init, sep), last, sep);
    }
  }

  /** A separator followed by a separator-free tail adds exactly that tail as the last part. */
  lemma SplitAppend(a: string, b: string, sep: char)
    requires sep !in b
    ensures Split(a + [sep] + b, sep) == Split(a, sep) + [b]
  {
    var s := a + [sep] + b;
    assert s[|a|] == sep;
    var i := LastIndexOf(s, sep);
    assert forall j :: |a| < j < |s| ==> s[j] == b[j - |a| - 1];
    assert s[..i] == a && s[i + 1..] == b;
  }

  /** The last element of `s.split('/')`, which is what `.split('/').pop()` returns. */
  function LastSegment(s: string): (r: string)
    ensures '/' !in r
    ensures '/' !in s ==> r == s
    ensures '/' in s ==> r == s[LastIndexOf(s, '/') + 1..]
  {
    var parts := Split(s, '/');
    parts[|parts| - 1]
  }

  // ---------------------------------------------------------------------------------------
  // Resolving path strings

  /** A resolved path: the sequence of its components, read from the file system root. */
  type Path = seq<string>

  /** A single component name for a directory entry: no separator, not empty, not a dot entry. */
  predicate IsName(c: string) {
    c != "" && c != "." && c != ".." && '/' !in c
  }

  /** `path.join(a, b)` before normalisation; the file system resolves both forms alike. */
  function PathJoin(a: string, b: string): string {
    a + "/" + b
  }

  /** One step of resolution: empty and `.` components vanish, `..` goes up (not above the root). */
  function Step(p: Path, c: string): (r: Path)
    ensures IsName(c) ==> r == p + [c]
  {
    if c == "" || c == "." then p
    else if c == ".." then (if p == [] then [] else p[..|p| - 1])
    else p + [c]
  }

  /** Resolution of a sequence of raw components, from left to right. */
  function Normalize(cs: seq<string>): Path {
    if cs == [] then [] else Step(Normalize(cs[..|cs| - 1]), cs[|cs| - 1])
  }

  /** The component path a path string names. */
  function Resolve(s: string): Path {
    Normalize(Split(s, '/'))
  }

  /** Joining a single component onto a path string resolves that component last. */
  lemma ResolveJoin(a: string, b: string)
    requires '/' !in b
    ensures Resolve(PathJoin(a, b)) == Step(Resolve(a), b)
  {
    var cs := Split(a, '/');
    SplitAppend(a, b, '/');
    assert Split(a + "/" + b, '/') == cs + [b];
    assert (cs + [b])[..|cs|] == cs;
  }

  /** Joining a plain name onto a path string names the child of the path it names. */
  lemma ResolveChild(a: string, b: string)
    requires IsName(b)
    ensures Resolve(PathJoin(a, b)) == Resolve(a) + [b]
  {
    ResolveJoin(a, b);
  }

  /** A trailing separator does not change the path a string names. */
  lemma ResolveTrailingSlash(a: string)
    ensures Resolve(a + "/") == Resolve(a)
  {
    var cs := Split(a, '/');
    SplitAppend(a, "", '/');
    assert a + "/" == a + ['/'] + "";
    assert (cs + [""])[..|cs|] == cs;
  }
}
