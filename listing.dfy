/**
 * The directory listing of a scan: every file the directory walk reports,
 * joined to its directory, except names whose extension is in the ignore set.
 * The walk itself is input: each entry is one directory and the file names it
 * holds, in the order the walk produced them.
 */
module Listing {
  import opened Paths

  /** Extensions that are never listed; compared after lower-casing. */
  const IgnoreExtensions: set<string> := {"lrc", "txt", "jpeg", "jpg"}

  /** The text after the last '.' of a file name, or the whole name when it has no '.'. */
  function Extension(name: string): string
  {
    AfterLast(name, '.')
  }

  predicate Ignored(name: string)
  {
    Lower(Extension(name)) in IgnoreExtensions
  }

  /** Only the last dot-separated segment decides. */
  lemma IgnoredByLastSegment(stem: string, ext: string)
    requires '.' !in ext
    ensures Ignored(stem + "." + ext) <==> Ignored(ext)
  {
    assert stem + "." + ext == stem + ['.'] + ext;
    AfterLastOfAppend(stem, '.', ext);
    AfterLastAbsent(ext, '.');
  }

  /** The rule ignores case: a name and its lower-cased form are kept or dropped together. */
  lemma IgnoredIgnoresCase(name: string)
    ensures Ignored(Lower(name)) <==> Ignored(name)
  {
    LowerAfterLastDot(name);
    var e := Extension(name);
    assert Lower(Lower(e)) == Lower(e);
  }

  /** The names of one directory that the listing keeps, in their order. */
  function KeepNames(names: seq<string>): seq<string>
  {
    if names == [] then []
    else
      var last := names[|names| - 1];
      KeepNames(names[..|names| - 1]) + (if Ignored(last) then [] else [last])
  }

  /** A name is kept iff it is one of the names and it is not ignored. */
  lemma {:induction false} KeepNamesMember(names: seq<string>, x: string)
    ensures x in KeepNames(names) <==> x in names && !Ignored(x)
  {
    if names != [] {
      var init := names[..|names| - 1];
      KeepNamesMember(init, x);
      assert names == init + [names[|names| - 1]];
    }
  }

  /** Filtering distributes over concatenation, so kept names stay in their order. */
  lemma {:induction false} KeepNamesAppend(a: seq<string>, b: seq<string>)
    ensures KeepNames(a + b) == KeepNames(a) + KeepNames(b)
  {
    if b == [] {
      assert a + b == a;
    } else {
      var b' := b[..|b| - 1];
      assert (a + b)[..|a + b| - 1] == a + b';
      KeepNamesAppend(a, b');
    }
  }

  /** One directory of the walk: its path and the file names in it. */
  datatype WalkEntry = WalkEntry(root: string, filenames: seq<string>)

  function JoinAll(root: string, names: seq<string>): (r: seq<string>)
  {
    seq(|names|, i requires 0 <= i < |names| => Join(root, names[i]))
  }

  /** The paths the listing returns for a whole walk, in walk order. */
  function Listed(walk: seq<WalkEntry>): seq<string>
  {
    if walk == [] then []
    else
      var last := walk[|walk| - 1];
      Listed(walk[..|walk| - 1]) + JoinAll(last.root, KeepNames(last.filenames))
  }

  /** The listing's loops: one pass over the walk, appending every kept file's joined path. */
  method ListFiles(walk: seq<WalkEntry>) returns (files: seq<string>)
    ensures files == Listed(walk)
  {
    files := [];
    for w := 0 to |walk|
      invariant files == Listed(walk[..w])
    {
      var entry := walk[w];
      ghost var before := files;
      for k := 0 to |entry.filenames|
        invariant files == before + JoinAll(entry.root, KeepNames(entry.filenames[..k]))
      {
        var filename := entry.filenames[k];
        assert entry.filenames[..k + 1][..k] == entry.filenames[..k];
        if !Ignored(filename) {
          files := files + [Join(entry.root, filename)];
        }
      }
      assert entry.filenames[..|entry.filenames|] == entry.filenames;
      assert walk[..w + 1][..w] == walk[..w];
    }
    assert walk[..|walk|] == walk;
  }

  /** The paths one directory contributes: the joins of its non-ignored names. */
  lemma JoinAllKeptMember(root: string, names: seq<string>, f: string)
    ensures f in JoinAll(root, KeepNames(names)) <==>
      exists name :: name in names && !Ignored(name) && f == Join(root, name)
  {
    var kept := KeepNames(names);
    var joined := JoinAll(root, kept);
    if f in joined {
      var i :| 0 <= i < |joined| && joined[i] == f;
      KeepNamesMember(names, kept[i]);
    }
    if exists name :: name in names && !Ignored(name) && f == Join(root, name) {
      var name :| name in names && !Ignored(name) && f == Join(root, name);
      KeepNamesMember(names, name);
      var i :| 0 <= i < |kept| && kept[i] == name;
      assert joined[i] == f;
    }
  }

  /** Whether some directory of the walk holds a non-ignored name joining to `f`. */
  ghost predicate ListedFrom(walk: seq<WalkEntry>, f: string)
  {
    exists w, name :: 0 <= w < |walk| && name in walk[w].filenames && !Ignored(name)
                      && f == Join(walk[w].root, name)
  }

  /** A walk's last directory adds exactly the joins of its non-ignored names to `ListedFrom`. */
  lemma ListedFromLast(walk: seq<WalkEntry>, f: string)
    requires walk != []
    ensures var last := walk[|walk| - 1];
      ListedFrom(walk, f) <==>
        (ListedFrom(walk[..|walk| - 1], f)
         || exists name :: name in last.filenames && !Ignored(name) && f == Join(last.root, name))
  {
    var init := walk[..|walk| - 1];
    if ListedFrom(init, f) {
      var w, name :| 0 <= w < |init| && name in init[w].filenames && !Ignored(name)
                     && f == Join(init[w].root, name);
      assert walk[w] == init[w];
    }
    if ListedFrom(walk, f) {
      var w, name :| 0 <= w < |walk| && name in walk[w].filenames && !Ignored(name)
                     && f == Join(walk[w].root, name);
      if w < |init| {
        assert init[w] == walk[w];
        assert ListedFrom(init, f);
      }
    }
  }

  /** A path is listed iff some directory of the walk holds a non-ignored name that joins to it. */
  lemma {:induction false} ListedMember(walk: seq<WalkEntry>, f: string)
    ensures f in Listed(walk) <==> ListedFrom(walk, f)
  {
    if walk != [] {
      var init := walk[..|walk| - 1];
      var last := walk[|walk| - 1];
      ListedMember(init, f);
      JoinAllKeptMember(last.root, last.filenames, f);
      ListedFromLast(walk, f);
      assert f in Listed(walk) <==> f in Listed(init) || f in JoinAll(last.root, KeepNames(last.filenames));
    }
  }

  /**
   * Since a directory walk reports plain names without '/', no listed path has
   * an ignored basename.
   */
  lemma ListedNotIgnored(walk: seq<WalkEntry>, f: string)
    requires forall w, name :: 0 <= w < |walk| && name in walk[w].filenames ==> '/' !in name
    requires f in Listed(walk)
    ensures !Ignored(Basename(f))
  {
    ListedMember(walk, f);
    var w, name :| 0 <= w < |walk| && name in walk[w].filenames && !Ignored(name)
                   && f == Join(walk[w].root, name);
    JoinBasename(walk[w].root, name);
  }
}
