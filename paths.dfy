/**
 * POSIX path text rules the scanner relies on: the basename of a path, the
 * text after the last dot of a file name, the two-argument path join and
 * ASCII lower-casing.
 */
module Paths {

  /** The text after the last occurrence of `c` in `s`; all of `s` when `c` does not occur. */
  function AfterLast(s: string, c: char): string
    decreases |s|
  {
    if s == [] then []
    else if s[|s| - 1] == c then []
    else AfterLast(s[..|s| - 1], c) + [s[|s| - 1]]
  }

  /**
   * AfterLast is the longest suffix of `s` free of `c`: it is a suffix, it does
   * not contain `c`, and the character just before it, if any, is `c`.
   */
  lemma {:induction false} AfterLastIsLastSegment(s: string, c: char)
    ensures var r := AfterLast(s, c);
      && |r| <= |s|
      && r == s[|s| - |r|..]
      && c !in r
      && (|r| < |s| ==> s[|s| - |r| - 1] == c)
  {
    if s != [] && s[|s| - 1] != c {
      var s' := s[..|s| - 1];
      AfterLastIsLastSegment(s', c);
      var r' := AfterLast(s', c);
      assert AfterLast(s, c) == r' + [s[|s| - 1]];
      assert s[|s| - |r'| - 1..] == s'[|s'| - |r'|..] + [s[|s| - 1]];
    }
  }

  /** When `c` does not occur in `s`, the last segment is the whole of `s`. */
  lemma AfterLastAbsent(s: string, c: char)
    requires c !in s
    ensures AfterLast(s, c) == s
  {
    AfterLastIsLastSegment(s, c);
  }

  /** Whatever precedes the last `c` does not matter. */
  lemma {:induction false} AfterLastOfAppend(p: string, c: char, e: string)
    requires c !in e
    ensures AfterLast(p + [c] + e, c) == e
  {
    var s := p + [c] + e;
    if e != [] {
      var e' := e[..|e| - 1];
      assert s[..|s| - 1] == p + [c] + e';
      AfterLastOfAppend(p, c, e');
      assert e == e' + [e[|e| - 1]];
    }
  }

  /** The file-name component of a path: the text after its last '/'. */
  function Basename(path: string): string
  {
    AfterLast(path, '/')
  }

  /**
   * The two-argument POSIX path join: an absolute `name` replaces `root`;
   * otherwise `name` is appended, with a '/' in between unless `root` is
   * empty or already ends with one.
   */
  function Join(root: string, name: string): string
  {
    if |name| > 0 && name[0] == '/' then name
    else if root == [] || root[|root| - 1] == '/' then root + name
    else root + "/" + name
  }

  /** Joining a directory with a plain file name and taking the basename gives the name back. */
  lemma JoinBasename(root: string, name: string)
    requires '/' !in name
    ensures Basename(Join(root, name)) == name
  {
    if root == [] {
      assert Join(root, name) == name;
      AfterLastAbsent(name, '/');
    } else if root[|root| - 1] == '/' {
      var p := root[..|root| - 1];
      assert Join(root, name) == p + ['/'] + name;
      AfterLastOfAppend(p, '/', name);
    } else {
      assert Join(root, name) == root + ['/'] + name;
      AfterLastOfAppend(root, '/', name);
    }
  }

  /** ASCII lower-casing of one character; other characters are left as they are. */
  function LowerChar(ch: char): char
  {
    if 'A' <= ch <= 'Z' then (ch as int + 32) as char else ch
  }

  /** ASCII lower-casing of a text, character by character. */
  function Lower(s: string): string
  {
    seq(|s|, i requires 0 <= i < |s| => LowerChar(s[i]))
  }

  /** Lower-casing and splitting at the last '.' commute: '.' has no case. */
  lemma {:induction false} LowerAfterLastDot(s: string)
    ensures AfterLast(Lower(s), '.') == Lower(AfterLast(s, '.'))
  {
    if s != [] {
      var s' := s[..|s| - 1];
      assert Lower(s)[..|s| - 1] == Lower(s');
      if s[|s| - 1] != '.' {
        LowerAfterLastDot(s');
        assert Lower(AfterLast(s', '.') + [s[|s| - 1]]) == Lower(AfterLast(s', '.')) + [LowerChar(s[|s| - 1])];
      }
    }
  }
}
