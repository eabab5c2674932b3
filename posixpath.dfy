/** Path joining as `os.path.join` does it on POSIX systems, with the
    separator (`os.sep`) given as a parameter. */
module PosixPath {

  /** A path that starts at the root. */
  predicate IsAbsolute(p: string, sep: char)
  {
    |p| > 0 && p[0] == sep
  }

  /** `os.path.join(base, part)`: an absolute `part` replaces `base`; otherwise
      `part` is appended, with a separator in between unless `base` is empty
      or already ends with one. */
  function Join(base: string, part: string, sep: char): string
  {
    if IsAbsolute(part, sep) then part
    else if base == [] || base[|base| - 1] == sep then base + part
    else base + [sep] + part
  }

  /** The joined path ends with `part`; an absolute `part` is the result on its
      own; otherwise the result is `base`, then a separator only where `base`
      is non-empty and does not already end with one, then `part`, so `base`
      and `part` meet at exactly one separator (or `base` is empty); and the
      result is absolute exactly when one of the two is. */
  lemma JoinSpec(base: string, part: string, sep: char)
    ensures var r := Join(base, part, sep);
      |part| <= |r| && r[|r| - |part|..] == part
      && (IsAbsolute(part, sep) ==> r == part)
      && (!IsAbsolute(part, sep) ==>
            exists m :: (m == [] || m == [sep]) && r == base + m + part
              && (base != [] ==> (base + m)[|base + m| - 1] == sep)
              && (m == [sep] ==> base != [] && base[|base| - 1] != sep))
      && (IsAbsolute(r, sep) <==> IsAbsolute(base, sep) || IsAbsolute(part, sep))
  {
    if !IsAbsolute(part, sep) {
      var m: string := if base == [] || base[|base| - 1] == sep then [] else [sep];
      assert Join(base, part, sep) == base + m + part;
    }
  }

  /** `os.path.basename(p)`: what follows the last separator. */
  function Basename(p: string, sep: char): (r: string)
    ensures |r| <= |p| && r == p[|p| - |r|..]
    ensures forall i :: 0 <= i < |r| ==> r[i] != sep
    ensures |r| < |p| ==> p[|p| - |r| - 1] == sep
  {
    if p == [] || p[|p| - 1] == sep then []
    else Basename(p[..|p| - 1], sep) + [p[|p| - 1]]
  }

  lemma {:induction false} BasenameAfterSep(x: string, part: string, sep: char)
    requires x != [] && x[|x| - 1] == sep
    ensures Basename(x + part, sep) == Basename(part, sep)
    decreases |part|
  {
    if part == [] {
      assert x + part == x;
    } else {
      var q := part[..|part| - 1];
      assert x + part == (x + q) + [part[|part| - 1]];
      assert (x + part)[..|x + part| - 1] == x + q;
      BasenameAfterSep(x, q, sep);
    }
  }

  /** Joining a non-empty part onto a root keeps the part's file name:
      `basename(join(base, part)) == basename(part)`. */
  lemma BasenameJoin(base: string, part: string, sep: char)
    requires part != []
    ensures Basename(Join(base, part, sep), sep) == Basename(part, sep)
  {
    if !IsAbsolute(part, sep) {
      if base == [] {
        assert base + part == part;
      } else if base[|base| - 1] == sep {
        BasenameAfterSep(base, part, sep);
      } else {
        assert base + [sep] + part == (base + [sep]) + part;
        BasenameAfterSep(base + [sep], part, sep);
      }
    }
  }
}
