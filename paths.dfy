/**
 POSIX path rules the extractor relies on: ASCII lower-casing, suffix tests,
 `os.path.basename`, `os.path.join` with two arguments, and the directories
 that `os.makedirs` brings into existence. The separator is always '/'.
 */
module KmzPaths {

  const SEP: char := '/'

  /** ASCII lower-casing of one character; every other character is kept. */
  function LowerChar(c: char): (r: char)
    ensures 'A' <= c <= 'Z' ==> r as int == c as int + 32
    ensures !('A' <= c <= 'Z') ==> r == c
    ensures !('A' <= r <= 'Z')
  {
    if 'A' <= c <= 'Z' then (c as int + 32) as char else c
  }

  /** `str.lower()`, restricted to ASCII: lower-cases character by character. */
  function Lower(s: string): (r: string)
    ensures |r| == |s|
    ensures forall i :: 0 <= i < |s| ==> r[i] == LowerChar(s[i])
  {
    seq(|s|, i requires 0 <= i < |s| => LowerChar(s[i]))
  }

  /** `str.endswith(suffix)`. */
  predicate EndsWith(s: string, suffix: string)
  {
    |suffix| <= |s| && s[|s| - |suffix|..] == suffix
  }

  /** `str.startswith(prefix)`. */
  predicate StartsWith(s: string, prefix: string)
  {
    |prefix| <= |s| && s[..|prefix|] == prefix
  }

  /**
   `os.path.basename`: everything after the last separator, or the whole
   name when it has none. The result is the longest separator-free suffix.
   */
  function Basename(p: string): (r: string)
    decreases |p|
    ensures SEP !in r
    ensures |r| <= |p| && p[|p| - |r|..] == r
    ensures |r| == |p| || p[|p| - |r| - 1] == SEP
  {
    if p == [] then []
    else if p[|p| - 1] == SEP then []
    else Basename(p[..|p| - 1]) + [p[|p| - 1]]
  }

  /**
   The basename is determined by its three properties: a name split into a
   head that is empty or ends in a separator and a separator-free tail has
   that tail as its basename.
   */
  lemma {:induction false} BasenameUnique(head: string, tail: string)
    requires SEP !in tail
    requires head == [] || head[|head| - 1] == SEP
    ensures Basename(head + tail) == tail
    decreases |tail|
  {
    if tail == [] {
      assert head + tail == head;
    } else {
      var p, init, last := head + tail, tail[..|tail| - 1], tail[|tail| - 1];
      assert tail == init + [last];
      assert p[|p| - 1] == last && last in tail;
      assert p[..|p| - 1] == head + init;
      assert SEP !in init by {
        assert forall c :: c in init ==> c in tail;
      }
      BasenameUnique(head, init);
    }
  }

  /** A separator-free name is its own basename. */
  lemma BasenameOfPlainName(name: string)
    requires SEP !in name
    ensures Basename(name) == name
  {
    BasenameUnique([], name);
    assert [] + name == name;
  }

  /**
   `os.path.join(a, b)` for two arguments, as POSIX Python computes it: an
   absolute `b` replaces `a`; otherwise `b` is appended, with a separator
   in between unless `a` is empty or already ends in one.
   */
  function Join(a: string, b: string): (r: string)
    ensures StartsWith(b, [SEP]) ==> r == b
    ensures !StartsWith(b, [SEP]) ==> StartsWith(r, a) && EndsWith(r, b)
    ensures !StartsWith(b, [SEP]) ==> |r| == |a| + |b| || (|r| == |a| + |b| + 1 && r[|a|] == SEP)
    ensures !StartsWith(b, [SEP]) ==> (|r| == |a| + |b| + 1 <==> a != [] && a[|a| - 1] != SEP)
  {
    if |b| > 0 && b[0] == SEP then b
    else if a == [] || a[|a| - 1] == SEP then a + b
    else a + [SEP] + b
  }

  /** Joining a separator-free name gives back that name as the basename. */
  lemma JoinBasename(dir: string, name: string)
    requires SEP !in name
    ensures Basename(Join(dir, name)) == name
  {
    if dir == [] || dir[|dir| - 1] == SEP {
      BasenameUnique(dir, name);
    } else {
      var head := dir + [SEP];
      assert dir + [SEP] + name == head + name;
      BasenameUnique(head, name);
    }
  }

  /** `q` names a directory on the way to `p`: a prefix of `p` followed by a separator. */
  predicate IsDirAbove(q: string, p: string)
  {
    0 < |q| < |p| && p[..|q|] == q && p[|q|] == SEP
  }

  /**
   The directories that exist after creating the parents of `p`
   (`os.makedirs(os.path.dirname(p), exist_ok=True)`): every non-empty
   prefix of `p` that stops just before a separator.
   */
  function DirsAbove(p: string): (r: set<string>)
    ensures forall q :: q in r <==> IsDirAbove(q, p)
  {
    set i | 0 < i < |p| && p[i] == SEP :: p[..i]
  }

  /**
   The directories that exist after `os.makedirs(d, exist_ok=True)`:
   `d` itself and every directory above it. An empty `d` makes
   `os.makedirs` fail, so callers rule it out first.
   */
  function MakeDirs(d: string): (r: set<string>)
    requires d != []
    ensures forall q :: q in r <==> q == d || IsDirAbove(q, d)
  {
    DirsAbove(d) + {d}
  }

  /** A separator-free tail adds no directory above a name. */
  lemma DirsAbovePlainTail(head: string, tail: string)
    requires SEP !in tail
    ensures DirsAbove(head + tail) == DirsAbove(head)
  {
    var p := head + tail;
    forall q | q in DirsAbove(p) ensures q in DirsAbove(head) {
      assert head[..|q|] == p[..|q|];
    }
    forall q | q in DirsAbove(head) ensures q in DirsAbove(p) {
      assert head[..|q|] == p[..|q|];
    }
  }

  /** The directories above "d/..." are the ones `os.makedirs(d)` makes. */
  lemma DirsAboveFolder(d: string)
    requires d != []
    ensures DirsAbove(d + [SEP]) == MakeDirs(d)
  {
    var p := d + [SEP];
    forall q | q in DirsAbove(p) ensures q in MakeDirs(d) {
      assert p[..|q|] == d[..|q|];
      if |q| < |d| {
        assert p[|q|] == d[|q|];
      }
    }
    forall q | q in MakeDirs(d) ensures q in DirsAbove(p) {
      if q != d {
        assert p[..|q|] == d[..|q|];
        assert p[|q|] == d[|q|];
      }
      assert p[..|d|] == d;
    }
  }

  /** One more level below `d` needs exactly `d` and the directories above it. */
  lemma DirsAboveChild(d: string, name: string)
    requires d != [] && SEP !in name
    ensures DirsAbove(d + [SEP] + name) == MakeDirs(d)
  {
    DirsAbovePlainTail(d + [SEP], name);
    DirsAboveFolder(d);
  }
}
