/**
 Models of the Python library string operations that `generate_output_name`
 relies on: `str.split` with a one-character separator, `str.rfind`,
 `os.path.splitext` (POSIX flavour) and `re.sub(r"\W+", "_", s)`.
 */
module PyLib {

  // ---------------------------------------------------------------------------
  // str.split(sep) and its inverse, sep.join(parts)
  // ---------------------------------------------------------------------------

  /** `s.split(sep)`: the fields between occurrences of `sep`, empty fields included. */
  function Split(s: string, sep: char): (parts: seq<string>)
    ensures |parts| >= 1
    ensures forall i :: 0 <= i < |parts| ==> sep !in parts[i]
    decreases |s|
  {
    if s == [] then [""]
    else
      var rest := Split(s[1..], sep);
      if s[0] == sep then [""] + rest
      else [[s[0]] + rest[0]] + rest[1..]
  }

  /** `sep.join(parts)`. */
  function Join(parts: seq<string>, sep: char): (s: string)
    requires |parts| >= 1
    ensures parts[0] <= s
  {
    if |parts| == 1 then parts[0] else parts[0] + [sep] + Join(parts[1..], sep)
  }

  /** Joining the fields of a split gives back the original string. */
  lemma {:induction false} JoinSplit(s: string, sep: char)
    ensures Join(Split(s, sep), sep) == s
    decreases |s|
  {
    if s != [] {
      var rest := Split(s[1..], sep);
      JoinSplit(s[1..], sep);
      if s[0] == sep {
        assert Split(s, sep)[1..] == rest;
      } else if |rest| > 1 {
        var parts := Split(s, sep);
        assert parts[1..] == rest[1..];
        assert s == [s[0]] + s[1..];
      } else {
        assert s == [s[0]] + s[1..];
      }
    }
  }

  /** A string without the separator splits into itself alone. */
  lemma {:induction false} SplitWithoutSep(s: string, sep: char)
    requires sep !in s
    ensures Split(s, sep) == [s]
    decreases |s|
  {
    if s != [] {
      assert sep !in s[1..];
      SplitWithoutSep(s[1..], sep);
      assert s == [s[0]] + s[1..];
    }
  }

  /** Splitting distributes over a separator: the fields of `a + sep + b` are those of `a` followed by those of `b`. */
  lemma {:induction false} SplitAppend(a: string, sep: char, b: string)
    ensures Split(a + [sep] + b, sep) == Split(a, sep) + Split(b, sep)
    decreases |a|
  {
    var s := a + [sep] + b;
    if a == [] {
      assert s[1..] == b;
    } else {
      assert s[0] == a[0];
      assert s[1..] == a[1..] + [sep] + b;
      SplitAppend(a[1..], sep, b);
    }
  }

  /** Splitting the join of separator-free fields gives back those fields. */
  lemma {:induction false} SplitJoin(parts: seq<string>, sep: char)
    requires |parts| >= 1
    requires forall i :: 0 <= i < |parts| ==> sep !in parts[i]
    ensures Split(Join(parts, sep), sep) == parts
    decreases |parts|
  {
    SplitWithoutSep(parts[0], sep);
    if |parts| > 1 {
      SplitJoin(parts[1..], sep);
      SplitAppend(parts[0], sep, Join(parts[1..], sep));
      assert parts == [parts[0]] + parts[1..];
    }
  }

  // ---------------------------------------------------------------------------
  // str.rfind(c)
  // ---------------------------------------------------------------------------

  /** `s.rfind(c)`: the index of the last occurrence of `c`, or -1 when there is none. */
  function RFind(s: string, c: char): (i: int)
    ensures -1 <= i < |s|
    ensures i >= 0 ==> s[i] == c
    ensures forall j :: i < j < |s| ==> s[j] != c
    decreases |s|
  {
    if s == [] then -1
    else if s[|s| - 1] == c then |s| - 1
    else RFind(s[..|s| - 1], c)
  }

  // ---------------------------------------------------------------------------
  // os.path.splitext(p) on POSIX
  // ---------------------------------------------------------------------------

  /** Every character of `s` is a dot. */
  predicate OnlyDots(s: string) {
    forall i :: 0 <= i < |s| ==> s[i] == '.'
  }

  /**
   Where `os.path.splitext(p)` splits, with `/` as separator and `.` as
   extension separator: at the last dot of the final path component, and only
   when some non-dot character of that component precedes it, so leading dots
   (".bashrc") never start an extension; `|p|` when there is no extension.
   */
  function ExtIndex(p: string): (k: int)
    ensures 0 <= k <= |p|
    ensures k < |p| ==> p[k] == '.'
    ensures forall j :: k < j < |p| ==> p[j] != '.' && p[j] != '/'
  {
    var sepIndex := RFind(p, '/');
    var dotIndex := RFind(p, '.');
    if dotIndex > sepIndex && !OnlyDots(p[sepIndex + 1..dotIndex]) then dotIndex else |p|
  }

  /**
   `os.path.splitext(p)`: the pair `(root, ext)` whose concatenation is `p`,
   where `ext` is empty or a dot followed by characters that are neither dots
   nor separators.
   */
  function SplitExt(p: string): (r: (string, string))
    ensures r.0 + r.1 == p
    ensures r.1 == [] || r.1[0] == '.'
    ensures forall k :: 0 < k < |r.1| ==> r.1[k] != '.' && r.1[k] != '/'
  {
    var k := ExtIndex(p);
    assert p[..k] + p[k..] == p;
    (p[..k], p[k..])
  }

  /**
   For a single path component: the extension is split off exactly when some
   dot has a non-dot character before it, and then the root is not empty and
   does not consist of dots alone.
   */
  lemma SplitExtOfName(name: string)
    requires '/' !in name
    ensures SplitExt(name).1 != [] <==>
              exists i, j :: 0 <= j < i < |name| && name[i] == '.' && name[j] != '.'
    ensures SplitExt(name).1 != [] ==> !OnlyDots(SplitExt(name).0)
  {
    var dotIndex := RFind(name, '.');
    assert RFind(name, '/') == -1;
    if exists i, j :: 0 <= j < i < |name| && name[i] == '.' && name[j] != '.' {
      var i, j :| 0 <= j < i < |name| && name[i] == '.' && name[j] != '.';
      assert j < i <= dotIndex;
      assert name[0..dotIndex][j] == name[j];
    }
  }

  /** A name without a dot has no extension. */
  lemma SplitExtNoDot(name: string)
    requires '.' !in name
    ensures SplitExt(name) == (name, [])
  {
    var dotIndex := RFind(name, '.');
    assert dotIndex == -1;
    assert ExtIndex(name) == |name|;
    assert name[..|name|] == name;
  }

  /**
   A component `root + "." + tail` whose root has a non-dot character and
   whose tail has no dot splits into `root` and `"." + tail`.
   */
  lemma SplitExtAtLastDot(root: string, tail: string)
    requires '/' !in root && '/' !in tail && '.' !in tail
    requires !OnlyDots(root)
    ensures SplitExt(root + "." + tail) == (root, "." + tail)
  {
    var name := root + "." + tail;
    assert name[|root|] == '.';
    assert forall j :: |root| < j < |name| ==> name[j] == tail[j - |root| - 1];
    var dotIndex := RFind(name, '.');
    assert dotIndex == |root|;
    var sepIndex := RFind(name, '/');
    assert sepIndex == -1;
    assert name[sepIndex + 1..dotIndex] == root;
    assert ExtIndex(name) == |root|;
    assert name[..|root|] == root;
    assert name[|root|..] == "." + tail;
  }

  /** Dots that only lead a component never start an extension. */
  lemma SplitExtLeadingDots(dots: string, tail: string)
    requires OnlyDots(dots)
    requires '/' !in tail && '.' !in tail
    ensures SplitExt(dots + tail) == (dots + tail, [])
  {
    var name := dots + tail;
    var dotIndex := RFind(name, '.');
    var sepIndex := RFind(name, '/');
    assert forall j :: |dots| <= j < |name| ==> name[j] == tail[j - |dots|];
    assert dotIndex < |dots|;
    if dotIndex > sepIndex {
      assert forall j :: sepIndex + 1 <= j < dotIndex ==> name[j] == dots[j];
      assert OnlyDots(name[sepIndex + 1..dotIndex]);
    }
    assert ExtIndex(name) == |name|;
    assert name[..|name|] == name;
  }

  /** The root of a non-empty path component is not empty. */
  lemma SplitExtRootNonEmpty(name: string)
    requires '/' !in name && name != []
    ensures SplitExt(name).0 != []
  {
    SplitExtOfName(name);
  }

  // ---------------------------------------------------------------------------
  // re.sub(r"\W+", "_", s)
  // ---------------------------------------------------------------------------

  /** Regular-expression word characters, `\w`, restricted to ASCII. */
  predicate IsWordChar(c: char) {
    ('a' <= c <= 'z') || ('A' <= c <= 'Z') || ('0' <= c <= '9') || c == '_'
  }

  /** Every character of `s` is a word character. */
  predicate AllWord(s: string) {
    forall i :: 0 <= i < |s| ==> IsWordChar(s[i])
  }

  /** Every character of `s` is a non-word character. */
  predicate AllNonWord(s: string) {
    forall i :: 0 <= i < |s| ==> !IsWordChar(s[i])
  }

  /** The length of the greedy match of `\W+` at the start of `s` (0 when there is none). */
  function NonWordRun(s: string): (n: nat)
    ensures n <= |s|
    ensures forall i :: 0 <= i < n ==> !IsWordChar(s[i])
    ensures n == |s| || IsWordChar(s[n])
    decreases |s|
  {
    if s == [] || IsWordChar(s[0]) then 0 else 1 + NonWordRun(s[1..])
  }

  /**
   `re.sub(r"\W+", "_", s)`: scanning left to right, each maximal run of
   non-word characters is replaced by one underscore; word characters are
   copied.
   */
  function SubNonWord(s: string): (r: string)
    ensures AllWord(r)
    ensures |r| <= |s|
    ensures r == [] <==> s == []
    decreases |s|
  {
    if s == [] then []
    else if IsWordChar(s[0]) then [s[0]] + SubNonWord(s[1..])
    else "_" + SubNonWord(s[NonWordRun(s)..])
  }

  /** A string of word characters only is left unchanged. */
  lemma {:induction false} SubNonWordKeepsWords(w: string)
    requires AllWord(w)
    ensures SubNonWord(w) == w
    decreases |w|
  {
    if w != [] {
      SubNonWordKeepsWords(w[1..]);
      assert w == [w[0]] + w[1..];
    }
  }

  /** Substituting twice changes nothing more than substituting once. */
  lemma SubNonWordIdempotent(s: string)
    ensures SubNonWord(SubNonWord(s)) == SubNonWord(s)
  {
    SubNonWordKeepsWords(SubNonWord(s));
  }

  /**
   A maximal run of non-word characters `n`, after a stretch of word
   characters `w`, becomes exactly one underscore, and substitution carries on
   after it.
   */
  lemma {:induction false} SubNonWordRun(w: string, n: string, rest: string)
    requires AllWord(w)
    requires n != [] && AllNonWord(n)
    requires rest == [] || IsWordChar(rest[0])
    ensures SubNonWord(w + n + rest) == w + "_" + SubNonWord(rest)
    decreases |w|
  {
    var s := w + n + rest;
    if w == [] {
      assert s == n + rest;
      assert s[0] == n[0];
      RunOfNonWord(n, rest);
      assert s[|n|..] == rest;
    } else {
      assert s[0] == w[0];
      assert s[1..] == w[1..] + n + rest;
      SubNonWordRun(w[1..], n, rest);
      assert w == [w[0]] + w[1..];
    }
  }

  /** `\W+` matches exactly the run `n` when it is followed by a word character or the end. */
  lemma RunOfNonWord(n: string, rest: string)
    requires AllNonWord(n)
    requires rest == [] || IsWordChar(rest[0])
    ensures NonWordRun(n + rest) == |n|
  {
    var s := n + rest;
    assert forall i :: 0 <= i < |n| ==> s[i] == n[i];
    assert |n| < |s| ==> s[|n|] == rest[0];
  }
}
