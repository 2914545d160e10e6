/** The portal's drop box (backend/portal_files.py): safe names, and saving
    without clobbering. A directory is a map from names to contents. */
module PortalFiles {
  import opened Common
  import Decimal

  type Directory = map<string, Bytes>

  // ------------------------------------------------------------ safe names

  /** The components of a POSIX path: split at '/', empty and "." ones dropped. */
  function Components(path: string, current: string): seq<string> {
    if path == "" then Kept(current)
    else if path[0] == '/' then Kept(current) + Components(path[1..], "")
    else Components(path[1..], current + [path[0]])
  }

  function Kept(c: string): seq<string> { if c == "" || c == "." then [] else [c] }

  /** Path(path).name */
  function PathName(path: string): string {
    var cs := Components(path, "");
    if cs == [] then "" else cs[|cs| - 1]
  }

  /** None stands for InvalidFilename. */
  function SafeFilename(name: string): Option<string> {
    var candidate := PathName(name);
    if candidate == "" || candidate == "." || candidate == ".." then None else Some(candidate)
  }

  ghost predicate Plain(name: string) { name != "" && name != "." && name != ".." && '/' !in name }

  lemma {:induction false} ComponentsHaveNoSlash(path: string, current: string)
    requires '/' !in current
    ensures forall i | 0 <= i < |Components(path, current)| ::
              '/' !in Components(path, current)[i] && Components(path, current)[i] != ""
    decreases |path|
  {
    if path != "" {
      if path[0] == '/' {
        ComponentsHaveNoSlash(path[1..], "");
      } else {
        ComponentsHaveNoSlash(path[1..], current + [path[0]]);
      }
    }
  }

  lemma {:induction false} NoSlashOneComponent(path: string, current: string)
    requires '/' !in path
    ensures Components(path, current) == Kept(current + path)
    decreases |path|
  {
    if path == "" {
      assert current + path == current;
    } else {
      assert path[0] in path && forall c | c in path[1..] :: c in path;
      NoSlashOneComponent(path[1..], current + [path[0]]);
      assert current + [path[0]] + path[1..] == current + path;
    }
  }

  /** An accepted name is a plain file name, and every plain file name is accepted unchanged. */
  lemma SafeFilenameIsPlain(name: string)
    ensures SafeFilename(name).Some? ==> Plain(SafeFilename(name).value)
    ensures Plain(name) ==> SafeFilename(name) == Some(name)
  {
    ComponentsHaveNoSlash(name, "");
    if Plain(name) {
      NoSlashOneComponent(name, "");
      assert "" + name == name;
    }
  }

  lemma {:induction false} LastComponent(dir: string, current: string, name: string)
    requires Plain(name) && '/' !in current
    ensures var cs := Components(dir + "/" + name, current); cs != [] && cs[|cs| - 1] == name
    decreases |dir|
  {
    var path := dir + "/" + name;
    if dir == "" {
      assert path[0] == '/' && path[1..] == name;
      NoSlashOneComponent(name, "");
      assert "" + name == name;
    } else {
      assert path[0] == dir[0] && path[1..] == dir[1..] + "/" + name;
      if dir[0] == '/' {
        LastComponent(dir[1..], "", name);
      } else {
        LastComponent(dir[1..], current + [dir[0]], name);
      }
    }
  }

  /** Whatever directory is put in front, only the file's own name is used. */
  lemma DirectoryIsDropped(dir: string, name: string)
    requires Plain(name)
    ensures SafeFilename(dir + "/" + name) == Some(name)
  {
    LastComponent(dir, "", name);
  }

  // ---------------------------------------------------------- stem, suffix

  function LastDot(name: string): int
    ensures -1 <= LastDot(name) < |name|
  {
    if name == "" then -1 else if name[|name| - 1] == '.' then |name| - 1 else LastDot(name[..|name| - 1])
  }

  /** Where the suffix starts: at the last dot, unless that is the first or last character. */
  function Cut(name: string): (i: nat)
    ensures i <= |name|
  {
    var dot := LastDot(name);
    if 0 < dot < |name| - 1 then dot else |name|
  }

  function Stem(name: string): string { name[..Cut(name)] }

  function Suffix(name: string): string { name[Cut(name)..] }

  /** f"{stem} ({n}){suffix}" */
  function Numbered(name: string, n: nat): string { Stem(name) + " (" + Decimal.ToString(n) + ")" + Suffix(name) }

  lemma {:induction false} LastDotOf(stem: string, ext: string)
    requires '.' !in ext
    ensures LastDot(stem + "." + ext) == |stem|
  {
    var name := stem + "." + ext;
    if ext == "" {
      assert name[|name| - 1] == '.';
    } else {
      assert ext[|ext| - 1] in ext && name[|name| - 1] == ext[|ext| - 1];
      assert name[..|name| - 1] == stem + "." + ext[..|ext| - 1];
      assert forall c | c in ext[..|ext| - 1] :: c in ext;
      LastDotOf(stem, ext[..|ext| - 1]);
    }
  }

  /** The number goes between the stem and the extension. */
  lemma NumberedKeepsExtension(stem: string, ext: string, n: nat)
    requires stem != "" && ext != "" && '.' !in ext
    ensures Numbered(stem + "." + ext, n) == stem + " (" + Decimal.ToString(n) + ")." + ext
  {
    var name := stem + "." + ext;
    LastDotOf(stem, ext);
    assert name[..|stem|] == stem && name[|stem|..] == "." + ext;
    assert ")" + ("." + ext) == ")." + ext;
  }

  lemma NumberedInjective(name: string, m: nat, n: nat)
    requires Numbered(name, m) == Numbered(name, n)
    ensures m == n
  {
    var a, b := Decimal.ToString(m), Decimal.ToString(n);
    var x := |Stem(name)| + 2;
    assert |a| == |b|;
    assert a == Numbered(name, m)[x..x + |a|] && b == Numbered(name, n)[x..x + |b|];
    Decimal.PrintInjective(m, n);
  }

  lemma NumberedIsNew(name: string, n: nat)
    ensures Numbered(name, n) != name
    ensures Plain(name) ==> Plain(Numbered(name, n))
  {
    assert Stem(name) + Suffix(name) == name;
    assert |Numbered(name, n)| >= |name| + 4;
    if Plain(name) {
      var s := Numbered(name, n);
      forall i | 0 <= i < |s| ensures s[i] != '/' {
        var a, d := |Stem(name)|, |Decimal.ToString(n)|;
        if i < a { assert s[i] == name[i]; }
        else if a + 2 <= i < a + 2 + d { assert s[i] == Decimal.ToString(n)[i - a - 2]; }
        else if i >= a + 3 + d { assert s[i] == Suffix(name)[i - a - 3 - d] == name[Cut(name) + (i - a - 3 - d)]; }
      }
    }
  }

  // ------------------------------------------------------------------ save

  /** The names the loop tries before candidate n. */
  ghost function Tried(name: string, n: nat): set<string> {
    {name} + set k | 1 <= k < n :: Numbered(name, k)
  }

  lemma OnlyTheName(name: string)
    ensures Tried(name, 1) == {name}
  {
  }

  lemma NextIsUntried(name: string, n: nat)
    requires n >= 1
    ensures Numbered(name, n) !in Tried(name, n) && Tried(name, n + 1) == Tried(name, n) + {Numbered(name, n)}
  {
    var next := Numbered(name, n);
    NumberedIsNew(name, n);
    forall k | 1 <= k < n ensures Numbered(name, k) != next {
      if Numbered(name, k) == next { NumberedInjective(name, k, n); }
    }
  }

  lemma {:induction false} TriedAreDistinct(name: string, n: nat)
    requires n >= 1
    ensures |Tried(name, n)| == n
  {
    hide Tried, Numbered;
    if n == 1 {
      OnlyTheName(name);
    } else {
      TriedAreDistinct(name, n - 1);
      NextIsUntried(name, n - 1);
    }
  }

  datatype SaveResult = Saved(name: string, probes: nat) | InvalidFilename

  class Pool {
    var files: Directory

    constructor ()
      ensures files == map[]
    {
      files := map[];
    }

    /** The suffix loop ends within one probe more than there are files; the name
        chosen was free, and no existing file changes. */
    method Save(filename: string, data: Bytes) returns (r: SaveResult)
      modifies this
      ensures r.InvalidFilename? <==> SafeFilename(filename).None?
      ensures r.InvalidFilename? ==> files == old(files)
      ensures r.Saved? ==>
                && Plain(r.name) && r.name !in old(files)
                && files == old(files)[r.name := data]
                && r.probes <= |old(files)| + 1
      ensures r.Saved? ==>
                var name := SafeFilename(filename).value;
                if name !in old(files) then r.name == name
                else exists n :: 1 <= n && r.name == Numbered(name, n)
                                 && forall k | 1 <= k < n :: Numbered(name, k) in old(files)
    {
      var safe := SafeFilename(filename);
      if safe.None? {
        return InvalidFilename;
      }
      var name := safe.value;
      SafeFilenameIsPlain(filename);
      var dest, probes := name, 1;
      if dest in files {
        var n := 1;
        while dest in files
          invariant files == old(files) && probes == n >= 1
          invariant dest == if n == 1 then name else Numbered(name, n - 1)
          invariant Plain(dest)
          invariant name in files && forall k | 1 <= k < n - 1 :: Numbered(name, k) in files
          invariant n <= |files| + 1
          decreases |files| + 1 - n
        {
          assert Tried(name, n) <= files.Keys;
          TriedAreDistinct(name, n);
          SubsetSize(Tried(name, n), files.Keys);
          NumberedIsNew(name, n);
          dest := Numbered(name, n);
          n := n + 1;
          probes := probes + 1;
        }
      }
      files := files[dest := data];
      return Saved(dest, probes);
    }
  }
}
