/**
 * The files and directories under the storage root RDFS_PATH, and the effect of each
 * File and FileUtils call that lib/server.rb makes on them.
 */
module ContentStore {
  import opened Types
  import opened Paths

  /** Regular files with their bytes, and the directories other than the root. */
  datatype Fs = Fs(store: map<Path, Bytes>, dirs: set<Path>)

  predicate IsFile(fs: Fs, p: Path)
  {
    p in fs.store
  }

  /**
   * `File.directory?`: the root "" always is one. In a well-formed tree a directory is
   * never also a regular file, so checking for a directory first decides nothing.
   */
  predicate IsDir(fs: Fs, p: Path)
    ensures WellFormed(fs) && IsDir(fs, p) ==> !IsFile(fs, p)
  {
    p == "" || p in fs.dirs
  }

  /** `File.exists?`: in a well-formed tree whatever exists sits in existing directories. */
  predicate Exists(fs: Fs, p: Path)
    ensures WellFormed(fs) && Exists(fs, p) ==> ParentsPresent(fs, p)
  {
    IsFile(fs, p) || IsDir(fs, p)
  }

  /** Every ancestor directory of `p` exists, so `p` can be opened for writing. */
  predicate ParentsPresent(fs: Fs, p: Path)
  {
    Ancestors(p) <= fs.dirs
  }

  /** Nothing lies inside directory `d`, so `Dir.rmdir` can remove it. */
  predicate EmptyDir(fs: Fs, d: Path)
  {
    && (forall p | p in fs.store :: !Within(p, d))
    && (forall e | e in fs.dirs :: !Within(e, d))
  }

  /**
   * A directory tree: a name is a file or a directory but not both, the root is neither a
   * file nor listed among the other directories, and every entry sits in existing directories.
   */
  ghost predicate WellFormed(fs: Fs)
  {
    && fs.store.Keys !! fs.dirs
    && "" !in fs.store && "" !in fs.dirs
    && (forall p | p in fs.store :: ParentsPresent(fs, p))
    && (forall d | d in fs.dirs :: ParentsPresent(fs, d))
  }

  /**
   * `FileUtils.mkdir_p(File.dirname(p))`: create every ancestor of `p`. It raises EEXIST
   * when one of them already exists as a regular file, and in a well-formed tree it has then
   * created nothing yet (everything above that file is a directory already).
   */
  function MakeParents(fs: Fs, p: Path): (r: Outcome<Fs>)
    ensures r.Done? <==> Ancestors(p) !! fs.store.Keys
    ensures r.Raised? ==> r.fault == FileExists
    ensures r.Done? ==> r.value.store == fs.store && r.value.dirs == fs.dirs + Ancestors(p)
    ensures r.Done? ==> ParentsPresent(r.value, p)
    ensures r.Done? && WellFormed(fs) ==> WellFormed(r.value)
  {
    if Ancestors(p) !! fs.store.Keys then
      var next := fs.(dirs := fs.dirs + Ancestors(p));
      assert WellFormed(fs) ==> WellFormed(next) by {
        NotEmptyAncestors(p);
        forall a | a in Ancestors(p)
          ensures ParentsPresent(next, a)
        {
          AncestorOfAncestor(p, a);
        }
      }
      Done(next)
    else
      Raised(FileExists)
  }

  /** The root "" is never an ancestor, so `mkdir_p` never has to create it. */
  lemma NotEmptyAncestors(p: Path)
    ensures "" !in Ancestors(p)
  {
  }

  /**
   * `File.write(p, bytes)`: create or truncate the regular file `p`. It raises EISDIR on a
   * directory, and ENOENT or ENOTDIR when an ancestor is missing or is a regular file.
   */
  function Write(fs: Fs, p: Path, bytes: Bytes): (r: Outcome<Fs>)
    ensures r.Done? <==> !IsDir(fs, p) && ParentsPresent(fs, p)
    ensures r.Raised? && IsDir(fs, p) ==> r.fault == IsADirectory
    ensures r.Raised? && !IsDir(fs, p) ==>
              r.fault == (if Ancestors(p) !! fs.store.Keys then NoSuchFile else NotADirectory)
    ensures r.Done? ==> r.value.store == fs.store[p := bytes] && r.value.dirs == fs.dirs
    ensures r.Done? && WellFormed(fs) ==> WellFormed(r.value)
  {
    if IsDir(fs, p) then Raised(IsADirectory)
    else if !ParentsPresent(fs, p) then
      Raised(if Ancestors(p) !! fs.store.Keys then NoSuchFile else NotADirectory)
    else Done(fs.(store := fs.store[p := bytes]))
  }

  /**
   * Where `FileUtils.cp(src, dst)` puts the copy: inside `dst` under the source's
   * basename when `dst` is a directory, at `dst` otherwise.
   */
  function Destination(fs: Fs, src: Path, dst: Path): (t: Path)
    ensures !IsDir(fs, dst) ==> t == dst
    ensures IsDir(fs, dst) && dst != "" && Basename(src) != "" ==> Within(t, dst)
    ensures IsDir(fs, dst) ==> Basename(t) == Basename(src)
    ensures IsDir(fs, dst) ==> Ancestors(t) == (if dst == "" then {} else Ancestors(dst) + {dst})
    ensures IsDir(fs, dst) && dst == "" ==> t == Basename(src)
  {
    if IsDir(fs, dst) then Join(dst, Basename(src)) else dst
  }

  /**
   * `FileUtils.cp(src, dst)`: copy the bytes of regular file `src` byte for byte. It raises
   * ArgumentError when the target is `src` itself, ENOENT or EISDIR when `src` is not a
   * regular file, and whatever opening the target for writing raises.
   */
  function Copy(fs: Fs, src: Path, dst: Path): (r: Outcome<Fs>)
    ensures var t := Destination(fs, src, dst);
            r.Done? <==> IsFile(fs, src) && t != src && !IsDir(fs, t) && ParentsPresent(fs, t)
    ensures var t := Destination(fs, src, dst);
            r.Done? ==> r.value.store == fs.store[t := fs.store[src]] && r.value.dirs == fs.dirs
    ensures Destination(fs, src, dst) == src && Exists(fs, src) ==> r == Raised(SameFile)
    ensures !Exists(fs, src) ==> r == Raised(NoSuchFile)
    ensures r.Done? && WellFormed(fs) ==> WellFormed(r.value)
  {
    var t := Destination(fs, src, dst);
    if t == src && Exists(fs, src) then Raised(SameFile)
    else if !IsFile(fs, src) then Raised(if IsDir(fs, src) then IsADirectory else NoSuchFile)
    else Write(fs, t, fs.store[src])
  }

  /**
   * `FileUtils.rmdir(d)`: remove `d` when it is an empty directory. The FileUtils of the
   * Ruby releases this code was written for swallows ENOTEMPTY and ENOENT, so otherwise
   * nothing happens and nothing is raised.
   */
  function Rmdir(fs: Fs, d: Path): (r: Fs)
    ensures r.store == fs.store
    ensures d in r.dirs <==> d in fs.dirs && !EmptyDir(fs, d)
    ensures r.dirs - {d} == fs.dirs - {d}
    ensures WellFormed(fs) ==> WellFormed(r)
  {
    if d in fs.dirs && EmptyDir(fs, d) then
      var next := fs.(dirs := fs.dirs - {d});
      assert WellFormed(fs) ==> WellFormed(next) by {
        if WellFormed(fs) {
        }
      }
      next
    else
      fs
  }

  /** `FileUtils.rm_f(p)`: remove `p` if it is a regular file, ignoring every error. */
  function RmF(fs: Fs, p: Path): (r: Fs)
    ensures !IsFile(r, p)
    ensures forall q | q != p :: (q in r.store <==> q in fs.store)
    ensures forall q | q in r.store :: r.store[q] == fs.store[q]
    ensures r.dirs == fs.dirs
    ensures WellFormed(fs) ==> WellFormed(r)
  {
    fs.(store := fs.store - {p})
  }
}
