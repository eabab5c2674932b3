/** The index that `pedCls_Dataset` builds from its manifests, stated as
    functions: how dataset names become roots, how a manifest line becomes an
    (image path, label) entry, how the entries of all manifests are gathered
    in order, and how the result is cut down to `get_num` entries. */
module Manifest {
  import opened PyStr
  import opened PosixPath

  datatype Option<T> = None | Some(value: T)

  /** The exceptions that building the index can raise. */
  datatype Error =
    | MissingDataset(name: string)        // KeyError: the name is not in the dictionary
    | ManifestNotFound(path: string)      // the manifest file cannot be opened
    | NoTokens(path: string, line: nat)   // IndexError: `line[0]` of a blank line

  datatype Result<T> = Ok(value: T) | Err(error: Error)

  /** One manifest line, parsed: the image path and its label, kept as text. */
  datatype Entry = Entry(image: string, labelToken: string)

  /** The two parallel lists `images` and `labels`. */
  datatype Index = Index(images: seq<string>, labels: seq<string>)

  /** The directory below each root that holds the manifests. */
  const ManifestDir: string := "dataset_txt"

  /** The backslash that manifest lines may use as separator. */
  const Backslash: char := '\\'

  predicate WellFormed(ix: Index)
  {
    |ix.images| == |ix.labels|
  }

  function Append(a: Index, b: Index): Index
  {
    Index(a.images + b.images, a.labels + b.labels)
  }

  // ---------------------------------------------------------------------
  // Roots

  /** `[dict[name] for name in names]`, failing on the first missing name. */
  function Resolve(dict: map<string, string>, names: seq<string>): (r: Result<seq<string>>)
    ensures r.Ok? ==> |r.value| == |names|
  {
    if names == [] then Ok([])
    else
      match Resolve(dict, names[..|names| - 1])
      case Err(e) => Err(e)
      case Ok(roots) =>
        var name := names[|names| - 1];
        if name in dict then Ok(roots + [dict[name]]) else Err(MissingDataset(name))
  }

  /** The roots are the dictionary's values for the names, one per name and in
      the same order; a name missing from the dictionary is an error, and the
      error names the first such name. */
  lemma {:induction false} ResolveSpec(dict: map<string, string>, names: seq<string>)
    ensures Resolve(dict, names).Ok? <==> forall i :: 0 <= i < |names| ==> names[i] in dict
    ensures Resolve(dict, names).Ok? ==>
      forall i :: 0 <= i < |names| ==> Resolve(dict, names).value[i] == dict[names[i]]
    ensures Resolve(dict, names).Err? ==>
      exists k :: 0 <= k < |names| && names[k] !in dict
        && (forall i :: 0 <= i < k ==> names[i] in dict)
        && Resolve(dict, names).error == MissingDataset(names[k])
  {
    if names != [] {
      var init := names[..|names| - 1];
      ResolveSpec(dict, init);
      assert forall i :: 0 <= i < |init| ==> init[i] == names[i];
      if Resolve(dict, init).Err? {
        var k :| 0 <= k < |init| && init[k] !in dict
          && (forall i :: 0 <= i < k ==> init[i] in dict)
          && Resolve(dict, init).error == MissingDataset(init[k]);
        assert names[k] !in dict;
      } else if names[|names| - 1] !in dict {
        assert forall i :: 0 <= i < |names| - 1 ==> names[i] in dict;
      }
    }
  }

  /** An error on a prefix of the names is the error of the whole list. */
  lemma {:induction false} ResolveErrPrefix(dict: map<string, string>, names: seq<string>, k: nat)
    requires k <= |names| && Resolve(dict, names[..k]).Err?
    ensures Resolve(dict, names) == Resolve(dict, names[..k])
    decreases |names|
  {
    if k < |names| {
      var init := names[..|names| - 1];
      assert init[..k] == names[..k];
      ResolveErrPrefix(dict, init, k);
    } else {
      assert names[..k] == names;
    }
  }

  // ---------------------------------------------------------------------
  // Lines

  /** The tokens of one manifest line: every backslash turned into the
      separator, then `strip().split()`. */
  function Tokens(line: string, sep: char): seq<string>
  {
    Split(Strip(ReplaceAll(line, Backslash, sep)))
  }

  /** One manifest line: the image path is the first token joined onto the
      root, the label is the last token; a line without tokens has no entry. */
  function ParseLine(root: string, line: string, sep: char): Option<Entry>
  {
    var tokens := Tokens(line, sep);
    if tokens == [] then None
    else Some(Entry(Join(root, tokens[0], sep), tokens[|tokens| - 1]))
  }

  /** A line has no entry exactly when, after backslashes are turned into the
      separator, it is blank; otherwise the label is a single whitespace-free
      token and the image path ends with the line's first token. */
  lemma ParseLineSpec(root: string, line: string, sep: char)
    ensures Tokens(line, sep) == Split(ReplaceAll(line, Backslash, sep))
    ensures ParseLine(root, line, sep).None? <==> Blank(ReplaceAll(line, Backslash, sep))
    ensures ParseLine(root, line, sep).Some? ==>
      var tokens := Tokens(line, sep);
      var e := ParseLine(root, line, sep).value;
      |tokens| > 0 && IsWord(e.labelToken) && e.labelToken == tokens[|tokens| - 1]
      && |tokens[0]| <= |e.image| && e.image[|e.image| - |tokens[0]|..] == tokens[0]
  {
    var normalised := ReplaceAll(line, Backslash, sep);
    SplitStrip(normalised);
    SplitEmptyIffBlank(normalised);
    SplitWords(normalised);
    var tokens := Split(normalised);
    if tokens != [] {
      JoinSpec(root, tokens[0], sep);
    }
  }

  /** A line written as `path label` (or with more fields in between) and a
      newline parses back to the root joined with the path and to the label,
      both with backslashes turned into the separator; a line with a single
      field uses that field both as path and as label. */
  lemma ParseLineRoundTrip(root: string, fields: seq<string>, sep: char)
    requires |fields| >= 1 && forall k :: 0 <= k < |fields| ==> IsWord(fields[k])
    requires !IsSpace(sep)
    ensures ParseLine(root, Unsplit(fields) + "\n", sep)
         == Some(Entry(Join(root, ReplaceAll(fields[0], Backslash, sep), sep),
                       ReplaceAll(fields[|fields| - 1], Backslash, sep)))
  {
    var ws := ReplaceEach(fields, Backslash, sep);
    forall k | 0 <= k < |ws| ensures IsWord(ws[k]) {
      ReplaceAllWord(fields[k], Backslash, sep);
    }
    ReplaceAllAppend(Unsplit(fields), "\n", Backslash, sep);
    ReplaceAllUnsplit(fields, Backslash, sep);
    assert ReplaceAll("\n", Backslash, sep) == "\n";
    var normalised := ReplaceAll(Unsplit(fields) + "\n", Backslash, sep);
    assert normalised == Unsplit(ws) + ['\n'];
    SplitStrip(normalised);
    SplitSnocSpace(Unsplit(ws), '\n');
    SplitUnsplit(ws);
    assert Tokens(Unsplit(fields) + "\n", sep) == ws;
    assert ws[0] == ReplaceAll(fields[0], Backslash, sep);
  }

  /** The usual manifest line `path label`, with no backslash in it: the
      entry is the root joined with `path`, and the label `label`. */
  lemma ParsePathLabelLine(root: string, path: string, lbl: string, sep: char)
    requires IsWord(path) && IsWord(lbl) && Backslash !in path && Backslash !in lbl
    requires !IsSpace(sep)
    ensures ParseLine(root, path + " " + lbl + "\n", sep) == Some(Entry(Join(root, path, sep), lbl))
  {
    var fields := [path, lbl];
    assert Unsplit(fields) == path + " " + lbl by {
      assert fields[1..] == [lbl];
    }
    ParseLineRoundTrip(root, fields, sep);
    ReplaceAllSpec(path, Backslash, sep);
    ReplaceAllSpec(lbl, Backslash, sep);
    assert ReplaceAll(path, Backslash, sep) == path;
    assert ReplaceAll(lbl, Backslash, sep) == lbl;
    assert Unsplit(fields) + "\n" == path + " " + lbl + "\n";
  }

  /** The lines of one manifest, in order; the first line without tokens is
      an error that names the manifest and the line number (from 0). */
  function ParseLines(root: string, path: string, lines: seq<string>, sep: char): (r: Result<Index>)
    ensures r.Ok? ==> |r.value.images| == |lines| && |r.value.labels| == |lines|
    ensures r.Err? ==> r.error.NoTokens? && r.error.path == path && r.error.line < |lines|
  {
    if lines == [] then Ok(Index([], []))
    else
      match ParseLines(root, path, lines[..|lines| - 1], sep)
      case Err(e) => Err(e)
      case Ok(ix) =>
        match ParseLine(root, lines[|lines| - 1], sep)
        case None => Err(NoTokens(path, |lines| - 1))
        case Some(e) => Ok(Index(ix.images + [e.image], ix.labels + [e.labelToken]))
  }

  /** Every line of `lines` has an entry. */
  predicate AllParse(root: string, lines: seq<string>, sep: char)
  {
    forall j :: 0 <= j < |lines| ==> ParseLine(root, lines[j], sep).Some?
  }

  /** A manifest parses exactly when none of its lines is blank. */
  lemma {:induction false} ParseLinesOkIff(root: string, path: string, lines: seq<string>, sep: char)
    ensures ParseLines(root, path, lines, sep).Ok? <==> AllParse(root, lines, sep)
  {
    if lines != [] {
      var init := lines[..|lines| - 1];
      ParseLinesOkIff(root, path, init, sep);
      assert forall j :: 0 <= j < |init| ==> init[j] == lines[j];
    }
  }

  /** Entry `j` of both lists comes from line `j` of the manifest. */
  lemma {:induction false} ParseLinesAt(root: string, path: string, lines: seq<string>, sep: char, j: nat)
    requires ParseLines(root, path, lines, sep).Ok? && j < |lines|
    ensures ParseLine(root, lines[j], sep).Some?
    ensures ParseLines(root, path, lines, sep).value.images[j] == ParseLine(root, lines[j], sep).value.image
    ensures ParseLines(root, path, lines, sep).value.labels[j] == ParseLine(root, lines[j], sep).value.labelToken
  {
    var init := lines[..|lines| - 1];
    if j < |init| {
      assert init[j] == lines[j];
      ParseLinesAt(root, path, init, sep, j);
    }
  }

  /** A manifest that does not parse fails at its first blank line. */
  lemma {:induction false} ParseLinesFirstError(root: string, path: string, lines: seq<string>, sep: char)
    requires ParseLines(root, path, lines, sep).Err?
    ensures var j := ParseLines(root, path, lines, sep).error.line;
      ParseLine(root, lines[j], sep).None? && AllParse(root, lines[..j], sep)
  {
    var init := lines[..|lines| - 1];
    var j := ParseLines(root, path, lines, sep).error.line;
    if ParseLines(root, path, init, sep).Err? {
      ParseLinesFirstError(root, path, init, sep);
      assert init[j] == lines[j];
      assert lines[..j] == init[..j];
    } else {
      ParseLinesOkIff(root, path, init, sep);
      assert lines[..j] == init;
    }
  }

  /** An error on a prefix of a manifest is the error of the whole manifest. */
  lemma {:induction false} ParseLinesErrPrefix(root: string, path: string, lines: seq<string>, sep: char, k: nat)
    requires k <= |lines| && ParseLines(root, path, lines[..k], sep).Err?
    ensures ParseLines(root, path, lines, sep) == ParseLines(root, path, lines[..k], sep)
    decreases |lines|
  {
    if k < |lines| {
      var init := lines[..|lines| - 1];
      assert init[..k] == lines[..k];
      ParseLinesErrPrefix(root, path, init, sep, k);
    } else {
      assert lines[..k] == lines;
    }
  }

  // ---------------------------------------------------------------------
  // Manifests of several roots

  /** `os.path.join(root, 'dataset_txt', txt_name)`. */
  function ManifestPath(root: string, txtName: string, sep: char): (r: string)
    ensures |txtName| <= |r| && r[|r| - |txtName|..] == txtName
  {
    JoinSpec(Join(root, ManifestDir, sep), txtName, sep);
    Join(Join(root, ManifestDir, sep), txtName, sep)
  }

  /** The number of lines in the manifests of `roots` (a missing manifest
      counts as empty). */
  function TotalLines(roots: seq<string>, txtName: string, files: map<string, seq<string>>, sep: char): nat
  {
    if roots == [] then 0
    else
      var path := ManifestPath(roots[|roots| - 1], txtName, sep);
      TotalLines(roots[..|roots| - 1], txtName, files, sep) + (if path in files then |files[path]| else 0)
  }

  /** The entries of the manifests of all roots, root after root, each
      manifest's lines in order; `files` maps each readable path to its lines. */
  function LoadRoots(roots: seq<string>, txtName: string, files: map<string, seq<string>>, sep: char): (r: Result<Index>)
    ensures r.Ok? ==> WellFormed(r.value)
  {
    if roots == [] then Ok(Index([], []))
    else
      match LoadRoots(roots[..|roots| - 1], txtName, files, sep)
      case Err(e) => Err(e)
      case Ok(ix) =>
        var root := roots[|roots| - 1];
        var path := ManifestPath(root, txtName, sep);
        if path !in files then Err(ManifestNotFound(path))
        else
          match ParseLines(root, path, files[path], sep)
          case Err(e) => Err(e)
          case Ok(more) => Ok(Append(ix, more))
  }

  /** A successful load has one entry per line of every manifest. */
  lemma {:induction false} LoadRootsTotal(roots: seq<string>, txtName: string, files: map<string, seq<string>>, sep: char)
    requires LoadRoots(roots, txtName, files, sep).Ok?
    ensures |LoadRoots(roots, txtName, files, sep).value.images| == TotalLines(roots, txtName, files, sep)
  {
    if roots != [] {
      LoadRootsTotal(roots[..|roots| - 1], txtName, files, sep);
    }
  }

  /** The manifest of `root` exists and has no blank line. */
  predicate Loadable(root: string, txtName: string, files: map<string, seq<string>>, sep: char)
  {
    var path := ManifestPath(root, txtName, sep);
    path in files && ParseLines(root, path, files[path], sep).Ok?
  }

  /** Loading succeeds exactly when every root's manifest exists and parses
      (by ParseLinesOkIff: has no blank line). */
  lemma {:induction false} LoadRootsOkIff(roots: seq<string>, txtName: string, files: map<string, seq<string>>, sep: char)
    ensures LoadRoots(roots, txtName, files, sep).Ok? <==>
      forall i :: 0 <= i < |roots| ==> Loadable(roots[i], txtName, files, sep)
  {
    if roots != [] {
      var n := |roots| - 1;
      var init := roots[..n];
      LoadRootsOkIff(init, txtName, files, sep);
      assert LoadRoots(roots, txtName, files, sep).Ok?
         <==> LoadRoots(init, txtName, files, sep).Ok? && Loadable(roots[n], txtName, files, sep);
      if (forall i :: 0 <= i < |init| ==> Loadable(init[i], txtName, files, sep))
         && Loadable(roots[n], txtName, files, sep) {
        forall i | 0 <= i < |roots| ensures Loadable(roots[i], txtName, files, sep) {
          if i < n {
            assert init[i] == roots[i] && Loadable(init[i], txtName, files, sep);
          } else {
            assert i == n;
          }
        }
      }
      if forall i :: 0 <= i < |roots| ==> Loadable(roots[i], txtName, files, sep) {
        forall i | 0 <= i < |init| ensures Loadable(init[i], txtName, files, sep) {
          assert init[i] == roots[i] && Loadable(roots[i], txtName, files, sep);
        }
      }
    }
  }

  /** When loading fails, the error comes from the first root that is not
      loadable: its manifest is missing, or its manifest's own first error. */
  lemma {:induction false} LoadRootsFirstError(roots: seq<string>, txtName: string, files: map<string, seq<string>>, sep: char)
    requires LoadRoots(roots, txtName, files, sep).Err?
    ensures exists i :: (0 <= i < |roots|
      && (forall i' :: 0 <= i' < i ==> Loadable(roots[i'], txtName, files, sep))
      && (var path := ManifestPath(roots[i], txtName, sep);
          if path in files then ParseLines(roots[i], path, files[path], sep) == Err(LoadRoots(roots, txtName, files, sep).error)
          else LoadRoots(roots, txtName, files, sep).error == ManifestNotFound(path)))
  {
    var init := roots[..|roots| - 1];
    var n := |roots| - 1;
    var path := ManifestPath(roots[n], txtName, sep);
    assert forall i :: 0 <= i < |init| ==> init[i] == roots[i];
    if LoadRoots(init, txtName, files, sep).Err? {
      LoadRootsFirstError(init, txtName, files, sep);
      var i :| (0 <= i < |init|
        && (forall i' :: 0 <= i' < i ==> Loadable(init[i'], txtName, files, sep))
        && (var p := ManifestPath(init[i], txtName, sep);
            if p in files then ParseLines(init[i], p, files[p], sep) == Err(LoadRoots(init, txtName, files, sep).error)
            else LoadRoots(init, txtName, files, sep).error == ManifestNotFound(p)));
      assert roots[i] == init[i];
    } else {
      LoadRootsOkIff(init, txtName, files, sep);
      assert forall i' :: 0 <= i' < n ==> Loadable(roots[i'], txtName, files, sep);
    }
  }

  /** Loading roots one more root: the entries of `roots[i]` come right
      after those of the roots before it, in manifest order. */
  lemma LoadRootsSnoc(roots: seq<string>, txtName: string, files: map<string, seq<string>>, sep: char, i: nat)
    requires i < |roots| && LoadRoots(roots[..i + 1], txtName, files, sep).Ok?
    ensures LoadRoots(roots[..i], txtName, files, sep).Ok?
    ensures Loadable(roots[i], txtName, files, sep)
    ensures var path := ManifestPath(roots[i], txtName, sep);
      LoadRoots(roots[..i + 1], txtName, files, sep).value
        == Append(LoadRoots(roots[..i], txtName, files, sep).value, ParseLines(roots[i], path, files[path], sep).value)
  {
    assert roots[..i + 1][..i] == roots[..i];
  }

  /** Order is kept: loading a prefix of the roots gives a prefix of the
      entries (so with LoadRootsSnoc each root's entries form one block). */
  lemma {:induction false} LoadRootsPrefix(roots: seq<string>, txtName: string, files: map<string, seq<string>>, sep: char, k: nat)
    requires k <= |roots| && LoadRoots(roots, txtName, files, sep).Ok?
    ensures LoadRoots(roots[..k], txtName, files, sep).Ok?
    ensures LoadRoots(roots[..k], txtName, files, sep).value.images <= LoadRoots(roots, txtName, files, sep).value.images
    ensures LoadRoots(roots[..k], txtName, files, sep).value.labels <= LoadRoots(roots, txtName, files, sep).value.labels
    decreases |roots|
  {
    if k < |roots| {
      var init := roots[..|roots| - 1];
      assert init[..k] == roots[..k];
      assert LoadRoots(init, txtName, files, sep).Ok?;
      LoadRootsPrefix(init, txtName, files, sep, k);
    } else {
      assert roots[..k] == roots;
    }
  }

  /** One more line of a manifest, read after the lines before it. */
  lemma ParseLinesStep(root: string, path: string, lines: seq<string>, sep: char, j: nat)
    requires j < |lines| && ParseLines(root, path, lines[..j], sep).Ok?
    ensures var prev := ParseLines(root, path, lines[..j], sep).value;
      ParseLines(root, path, lines[..j + 1], sep)
        == match ParseLine(root, lines[j], sep)
           case None => Err(NoTokens(path, j))
           case Some(e) => Ok(Index(prev.images + [e.image], prev.labels + [e.labelToken]))
  {
    assert lines[..j + 1][..j] == lines[..j];
  }

  /** One more root, read after the roots before it. */
  lemma LoadRootsStep(roots: seq<string>, txtName: string, files: map<string, seq<string>>, sep: char, i: nat)
    requires i < |roots| && LoadRoots(roots[..i], txtName, files, sep).Ok?
    ensures var prev := LoadRoots(roots[..i], txtName, files, sep).value;
      var path := ManifestPath(roots[i], txtName, sep);
      LoadRoots(roots[..i + 1], txtName, files, sep)
        == if path !in files then Err(ManifestNotFound(path))
           else match ParseLines(roots[i], path, files[path], sep)
                case Err(e) => Err(e)
                case Ok(more) => Ok(Append(prev, more))
  {
    assert roots[..i + 1][..i] == roots[..i];
  }

  /** An error on a prefix of the roots is the error of all roots. */
  lemma {:induction false} LoadRootsErrPrefix(roots: seq<string>, txtName: string, files: map<string, seq<string>>, sep: char, k: nat)
    requires k <= |roots| && LoadRoots(roots[..k], txtName, files, sep).Err?
    ensures LoadRoots(roots, txtName, files, sep) == LoadRoots(roots[..k], txtName, files, sep)
    decreases |roots|
  {
    if k < |roots| {
      var init := roots[..|roots| - 1];
      assert init[..k] == roots[..k];
      LoadRootsErrPrefix(init, txtName, files, sep, k);
    } else {
      assert roots[..k] == roots;
    }
  }

  // ---------------------------------------------------------------------
  // Truncation

  function Min(a: int, b: int): int { if a <= b then a else b }
  function Max(a: int, b: int): int { if a >= b then a else b }

  /** Python's `s[:stop]`: a negative `stop` counts from the end. */
  function SliceTo<T>(s: seq<T>, stop: int): (r: seq<T>)
    ensures r <= s
    ensures stop >= 0 ==> |r| == Min(stop, |s|)
    ensures stop < 0 ==> |r| == Max(0, |s| + stop)
  {
    var k := if stop < 0 then stop + |s| else stop;
    s[..if k < 0 then 0 else if k > |s| then |s| else k]
  }

  /** `get_num == -1` keeps every entry; any other value slices both lists
      with `[:get_num]`. */
  function Truncate(ix: Index, getNum: int): (r: Index)
    requires WellFormed(ix)
    ensures WellFormed(r)
    ensures r.images <= ix.images && r.labels <= ix.labels
    ensures getNum == -1 ==> r == ix
    ensures getNum >= 0 ==> |r.images| == Min(getNum, |ix.images|)
    ensures getNum < -1 ==> |r.images| == Max(0, |ix.images| + getNum)
  {
    if getNum == -1 then ix
    else Index(SliceTo(ix.images, getNum), SliceTo(ix.labels, getNum))
  }

  /** What `initImgLabel` returns for the given roots. */
  function LoadIndex(roots: seq<string>, txtName: string, getNum: int,
                     files: map<string, seq<string>>, sep: char): (r: Result<Index>)
    ensures r.Ok? ==> WellFormed(r.value)
    ensures r.Err? <==> LoadRoots(roots, txtName, files, sep).Err?
  {
    match LoadRoots(roots, txtName, files, sep)
    case Err(e) => Err(e)
    case Ok(ix) => Ok(Truncate(ix, getNum))
  }

  /** What constructing the dataset yields: the roots are resolved first, so
      an unknown name is reported before any manifest is read. */
  function Build(dict: map<string, string>, names: seq<string>, txtName: string, getNum: int,
                 files: map<string, seq<string>>, sep: char): (r: Result<Index>)
    ensures r.Ok? ==> WellFormed(r.value)
    ensures Resolve(dict, names).Err? ==> r == Err(Resolve(dict, names).error)
  {
    match Resolve(dict, names)
    case Err(e) => Err(e)
    case Ok(roots) => LoadIndex(roots, txtName, getNum, files, sep)
  }

  /** The size of the index: with `get_num == -1` every line of every
      manifest; with `get_num >= 0` the first `min(get_num, total)`; a
      negative `get_num` below -1 drops that many entries from the end. In
      every case the index is a prefix of the untruncated one. */
  lemma LoadIndexLength(roots: seq<string>, txtName: string, getNum: int,
                        files: map<string, seq<string>>, sep: char)
    requires LoadIndex(roots, txtName, getNum, files, sep).Ok?
    ensures var all := LoadRoots(roots, txtName, files, sep).value;
      var ix := LoadIndex(roots, txtName, getNum, files, sep).value;
      var total := TotalLines(roots, txtName, files, sep);
      ix.images <= all.images && ix.labels <= all.labels
      && |ix.images| == |ix.labels|
      && (getNum == -1 ==> |ix.images| == total && ix == all)
      && (getNum >= 0 ==> |ix.images| == Min(getNum, total))
      && (getNum < -1 ==> |ix.images| == Max(0, total + getNum))
  {
    var all := LoadRoots(roots, txtName, files, sep).value;
    assert LoadIndex(roots, txtName, getNum, files, sep).value == Truncate(all, getNum);
    LoadRootsTotal(roots, txtName, files, sep);
  }
}
