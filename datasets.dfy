/** The `pedCls_Dataset` object: the roots it resolves from the dataset
    dictionary, and the two parallel lists of image paths and labels that it
    builds from the manifests under those roots. The file system is the map
    `files` from each readable path to its lines, and `sep` is `os.sep`. */
module Datasets {
  import opened PyStr
  import opened PosixPath
  import opened Manifest

  /** `[dict[name] for name in names]`: one root per name, in order; the first
      name missing from the dictionary raises. */
  method ResolveRoots(dict: map<string, string>, names: seq<string>) returns (r: Result<seq<string>>)
    ensures r == Resolve(dict, names)
  {
    var roots: seq<string> := [];
    var i := 0;
    while i < |names|
      invariant 0 <= i <= |names|
      invariant Resolve(dict, names[..i]) == Ok(roots)
    {
      var name := names[i];
      assert names[..i + 1][..i] == names[..i];
      if name !in dict {
        ResolveErrPrefix(dict, names, i + 1);
        return Err(MissingDataset(name));
      }
      roots := roots + [dict[name]];
      i := i + 1;
    }
    assert names[..i] == names;
    return Ok(roots);
  }

  /** Each of the lines `a.jpg 0` and `b.jpg 1` on its own. */
  lemma TwoLinesEach(root: string, sep: char)
    requires !IsSpace(sep)
    ensures ParseLine(root, "a.jpg 0\n", sep) == Some(Entry(Join(root, "a.jpg", sep), "0"))
    ensures ParseLine(root, "b.jpg 1\n", sep) == Some(Entry(Join(root, "b.jpg", sep), "1"))
  {
    assert IsWord("a.jpg") && IsWord("0");
    ParsePathLabelLine(root, "a.jpg", "0", sep);
    assert "a.jpg 0\n" == "a.jpg" + " " + "0" + "\n";
    assert IsWord("b.jpg") && IsWord("1");
    ParsePathLabelLine(root, "b.jpg", "1", sep);
    assert "b.jpg 1\n" == "b.jpg" + " " + "1" + "\n";
  }

  /** The two lines `a.jpg 0` and `b.jpg 1` of one manifest. */
  lemma TwoLines(root: string, path: string, sep: char)
    requires !IsSpace(sep)
    ensures ParseLines(root, path, ["a.jpg 0\n", "b.jpg 1\n"], sep)
         == Ok(Index([Join(root, "a.jpg", sep), Join(root, "b.jpg", sep)], ["0", "1"]))
  {
    var lines := ["a.jpg 0\n", "b.jpg 1\n"];
    var ix := Index([Join(root, "a.jpg", sep), Join(root, "b.jpg", sep)], ["0", "1"]);
    TwoLinesEach(root, sep);
    assert lines[..0] == [] && lines[..2] == lines;
    assert ParseLines(root, path, lines[..0], sep) == Ok(Index([], []));
    ParseLinesStep(root, path, lines, sep, 0);
    assert ParseLines(root, path, lines[..1], sep) == Ok(Index([] + [Join(root, "a.jpg", sep)], [] + ["0"]));
    assert [] + [Join(root, "a.jpg", sep)] == [Join(root, "a.jpg", sep)];
    assert [] + ["0"] == ["0"];
    assert ParseLines(root, path, lines[..1], sep) == Ok(Index([Join(root, "a.jpg", sep)], ["0"]));
    ParseLinesStep(root, path, lines, sep, 1);
    assert [Join(root, "a.jpg", sep)] + [Join(root, "b.jpg", sep)] == ix.images;
    assert ["0"] + ["1"] == ix.labels;
  }

  /** A single dataset whose manifest holds the lines `a.jpg 0` and
      `b.jpg 1`, loaded with `get_num == -1` (for any root and any
      separator that is not whitespace): two entries, in line order,
      each path the root joined with the first token, and the labels kept as
      the strings "0" and "1". */
  lemma TwoLineManifest(root: string, sep: char)
    requires !IsSpace(sep)
    ensures Build(map["D1" := root], ["D1"], "train.txt", -1,
                  map[ManifestPath(root, "train.txt", sep) := ["a.jpg 0\n", "b.jpg 1\n"]], sep)
         == Ok(Index([Join(root, "a.jpg", sep), Join(root, "b.jpg", sep)], ["0", "1"]))
  {
    var path := ManifestPath(root, "train.txt", sep);
    var lines := ["a.jpg 0\n", "b.jpg 1\n"];
    var ix := Index([Join(root, "a.jpg", sep), Join(root, "b.jpg", sep)], ["0", "1"]);
    assert Resolve(map["D1" := root], ["D1"]) == Ok([root]) by {
      assert ["D1"][..0] == [];
      assert [] + [root] == [root];
    }
    TwoLines(root, path, sep);
    var files := map[path := lines];
    assert [root][..0] == [] && [root][..1] == [root];
    assert LoadRoots([root][..0], "train.txt", files, sep) == Ok(Index([], []));
    LoadRootsStep([root], "train.txt", files, sep, 0);
    assert Append(Index([], []), ix) == ix;
    assert LoadRoots([root], "train.txt", files, sep) == Ok(ix);
  }

  class PedClsDataset {
    var dict: map<string, string>
    var baseDirList: seq<string>
    var txtName: string
    var getNum: int
    var images: seq<string>
    var labels: seq<string>

    /** The two lists stay parallel: entry `k` of `labels` is the label of
        entry `k` of `images`. */
    ghost predicate Valid()
      reads this
    {
      |images| == |labels|
    }

    /** The fields that the constructor sets before the manifests are read. */
    constructor (dict: map<string, string>, baseDirList: seq<string>, txtName: string, getNum: int)
      ensures this.dict == dict && this.baseDirList == baseDirList
      ensures this.txtName == txtName && this.getNum == getNum
      ensures images == [] && labels == []
      ensures Valid()
    {
      this.dict := dict;
      this.baseDirList := baseDirList;
      this.txtName := txtName;
      this.getNum := getNum;
      images := [];
      labels := [];
    }

    /** `initImgLabel`: reads the manifest of every root in turn, appends one
        (image path, label) pair per line, then keeps all pairs when
        `get_num == -1` and the slice `[:get_num]` otherwise. A missing
        manifest and a blank line stop the loading with an error. */
    method InitImgLabel(files: map<string, seq<string>>, sep: char) returns (r: Result<Index>)
      ensures r == LoadIndex(baseDirList, txtName, getNum, files, sep)
    {
      var images: seq<string> := [];
      var labels: seq<string> := [];
      var i := 0;
      while i < |baseDirList|
        invariant 0 <= i <= |baseDirList|
        invariant LoadRoots(baseDirList[..i], txtName, files, sep) == Ok(Index(images, labels))
      {
        var baseDir := baseDirList[i];
        var txtPath := Join(Join(baseDir, ManifestDir, sep), txtName, sep);
        if txtPath !in files {
          assert LoadIndex(baseDirList, txtName, getNum, files, sep) == Err(ManifestNotFound(txtPath)) by {
            LoadRootsStep(baseDirList, txtName, files, sep, i);
            LoadRootsErrPrefix(baseDirList, txtName, files, sep, i + 1);
          }
          return Err(ManifestNotFound(txtPath));
        }
        var data := files[txtPath];
        var loaded := AppendManifest(baseDir, txtPath, data, sep, images, labels);
        assert LoadRoots(baseDirList[..i + 1], txtName, files, sep) == loaded by {
          LoadRootsStep(baseDirList, txtName, files, sep, i);
        }
        if loaded.Err? {
          assert LoadIndex(baseDirList, txtName, getNum, files, sep) == Err(loaded.error) by {
            LoadRootsErrPrefix(baseDirList, txtName, files, sep, i + 1);
          }
          return Err(loaded.error);
        }
        images, labels := loaded.value.images, loaded.value.labels;
        i := i + 1;
      }
      assert LoadIndex(baseDirList, txtName, getNum, files, sep) == Ok(Truncate(Index(images, labels), getNum)) by {
        assert baseDirList[..i] == baseDirList;
      }
      if getNum != -1 {
        images := SliceTo(images, getNum);
        labels := SliceTo(labels, getNum);
      }
      return Ok(Index(images, labels));
    }

    /** The inner loop of `initImgLabel`, over the lines of one manifest:
        each line's backslashes become `sep`, the line is stripped and split,
        the first token joined onto the root is appended to `images` and the
        last token to `labels`; a line with no token stops with an error. */
    static method AppendManifest(baseDir: string, txtPath: string, data: seq<string>, sep: char,
                                 images0: seq<string>, labels0: seq<string>) returns (r: Result<Index>)
      ensures r == match ParseLines(baseDir, txtPath, data, sep)
                   case Err(e) => Err(e)
                   case Ok(more) => Ok(Append(Index(images0, labels0), more))
    {
      var images, labels := images0, labels0;
      var j := 0;
      while j < |data|
        invariant 0 <= j <= |data|
        invariant ParseLines(baseDir, txtPath, data[..j], sep).Ok?
        invariant Index(images, labels) == Append(Index(images0, labels0), ParseLines(baseDir, txtPath, data[..j], sep).value)
      {
        var line := ReplaceAll(data[j], Backslash, sep);
        var tokens := Split(Strip(line));
        if tokens == [] {
          assert ParseLines(baseDir, txtPath, data, sep) == Err(NoTokens(txtPath, j)) by {
            ParseLinesStep(baseDir, txtPath, data, sep, j);
            ParseLinesErrPrefix(baseDir, txtPath, data, sep, j + 1);
          }
          return Err(NoTokens(txtPath, j));
        }
        ghost var prev := ParseLines(baseDir, txtPath, data[..j], sep).value;
        assert ParseLines(baseDir, txtPath, data[..j + 1], sep)
            == Ok(Index(prev.images + [Join(baseDir, tokens[0], sep)], prev.labels + [tokens[|tokens| - 1]])) by {
          ParseLinesStep(baseDir, txtPath, data, sep, j);
        }
        images := images + [Join(baseDir, tokens[0], sep)];
        labels := labels + [tokens[|tokens| - 1]];
        j := j + 1;
      }
      assert data[..j] == data;
      return Ok(Index(images, labels));
    }

    /** `pedCls_Dataset(dict, ds_name_list, txt_name, get_num)`: resolves the
        roots, then fills `images` and `labels` with `initImgLabel`. Either
        step may raise; on success the dataset holds exactly the index that
        Build describes. */
    static method Create(dict: map<string, string>, dsNames: seq<string>, txtName: string, getNum: int,
                         files: map<string, seq<string>>, sep: char) returns (r: Result<PedClsDataset>)
      ensures r.Err? <==> Build(dict, dsNames, txtName, getNum, files, sep).Err?
      ensures r.Err? ==> r.error == Build(dict, dsNames, txtName, getNum, files, sep).error
      ensures r.Ok? ==> var d := r.value;
        fresh(d) && d.Valid()
        && d.dict == dict && Resolve(dict, dsNames) == Ok(d.baseDirList)
        && d.txtName == txtName && d.getNum == getNum
        && Build(dict, dsNames, txtName, getNum, files, sep) == Ok(Index(d.images, d.labels))
    {
      var roots := ResolveRoots(dict, dsNames);
      if roots.Err? {
        return Err(roots.error);
      }
      var d := new PedClsDataset(dict, roots.value, txtName, getNum);
      var ix := d.InitImgLabel(files, sep);
      if ix.Err? {
        return Err(ix.error);
      }
      d.images := ix.value.images;
      d.labels := ix.value.labels;
      return Ok(d);
    }

    /** `__len__`: the number of images, which is also the number of labels. */
    function Len(): (n: nat)
      reads this
      ensures n == |images|
      ensures Valid() ==> n == |labels|
    {
      |images|
    }
  }
}
