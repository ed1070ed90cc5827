/**
 * The filesystem as the rubbish bin sees it: a map from absolute path to the
 * object found there, with ownership and permission bits. A tossed
 * directory is a single node whose contents travel with it. Renames and
 * removals that the operating system may refuse take that verdict as an
 * input (`ok`); the model only decides what a granted call does.
 */
module FileSystem {
  import opened Results

  /** What `Lstat` reports, without following symbolic links. */
  datatype Kind = RegularFile | Directory | Symlink | Special

  /** An object: its kind, owner, group and mode bits. */
  datatype Node = Node(kind: Kind, uid: int, gid: int, mode: bv32)

  type Fs = map<string, Node>

  function Lstat(fs: Fs, path: string): Option<Kind> {
    if path in fs then Some(fs[path].kind) else None
  }

  function Stat(fs: Fs, path: string): Option<Node> {
    if path in fs then Some(fs[path]) else None
  }

  /** `fs'` agrees with `fs` on every path outside `changed`. */
  ghost predicate SameOutside(fs: Fs, fs': Fs, changed: set<string>) {
    forall p :: p !in changed ==> (p in fs <==> p in fs') && (p in fs ==> fs[p] == fs'[p])
  }

  /** A change confined to `small` followed by one confined to `big`, with
      `small` inside `big`, is confined to `big`. */
  lemma SameOutsideStep(a: Fs, b: Fs, c: Fs, small: set<string>, big: set<string>)
    requires small <= big && SameOutside(a, b, small) && SameOutside(b, c, big)
    ensures SameOutside(a, c, big)
  {
  }

  /** A path outside the changed ones that was present stays present. */
  lemma SameOutsideKeeps(fs: Fs, fs': Fs, changed: set<string>, x: string)
    requires SameOutside(fs, fs', changed) && x !in changed && x in fs
    ensures x in fs' && fs'[x] == fs[x]
  {
  }

  /** `os.Rename(from, to)`: when granted, the object at `from` now lives at
      `to`, replacing whatever was there. */
  function Rename(fs: Fs, from: string, to: string, ok: bool): (r: Option<Fs>)
    ensures r.Some? <==> ok && from in fs
    ensures r.Some? ==> to in r.value && r.value[to] == fs[from]
    ensures r.Some? && from != to ==> from !in r.value
    ensures r.Some? ==> SameOutside(fs, r.value, {from, to})
  {
    if !ok || from !in fs then None
    else if from == to then Some(fs)
    else Some((fs - {from})[to := fs[from]])
  }

  /** `os.RemoveAll(path)`: when granted, nothing is left at `path`; removing
      an absent path succeeds. */
  function RemoveAll(fs: Fs, path: string, ok: bool): (r: Option<Fs>)
    ensures r.Some? <==> ok
    ensures r.Some? ==> path !in r.value && SameOutside(fs, r.value, {path})
  {
    if ok then Some(fs - {path}) else None
  }
}
