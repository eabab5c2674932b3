# pedCls_Dataset manifest index, in Dafny

This project models how `pedCls_Dataset` in `datasets.py` builds its index
of training samples. The constructor looks up each requested dataset name in
a dictionary to get a root directory. `initImgLabel` then reads the manifest
`<root>/dataset_txt/<txt_name>` of every root in turn. For each line it:

- turns every backslash into `os.sep`;
- strips and splits the line on whitespace;
- joins the first token onto the root to form the image path;
- keeps the last token, as a string, as the label.

The paths and labels go into two parallel lists, root after root and line
after line. Finally the lists are truncated: all entries are kept when
`get_num == -1`, otherwise both are sliced with `[:get_num]`. `__len__` is
the length of the image list.

The project has four modules:

- `PyStr` (`pystr.dfy`): the parts of Python's `str` that the loader uses.
  These are the `isspace` whitespace class, `strip()`, `split()` with no
  argument, and one-character `replace`.
- `PosixPath` (`posixpath.dfy`): `os.path.join` with the POSIX rules; the
  separator is a parameter. It also defines `Basename`, which the loader
  never calls; it only serves to state that the join keeps the token's file
  name.
- `Manifest` (`manifest.dfy`): the index the loader builds, stated as
  functions over values, with the lemmas about it.
- `Datasets` (`datasets.dfy`): the class `PedClsDataset`. It has the source's
  fields, and its methods hold the source's loops. Each method is proved to
  compute the corresponding `Manifest` function.

The file system is a parameter `files`, a map from each readable path to the
lines `readlines()` returns. `os.sep` is a parameter `sep`. The exceptions the
source can raise become values of `Manifest.Error`:

- `MissingDataset` for the `KeyError` of an unknown dataset name;
- `ManifestNotFound` for a manifest that cannot be opened;
- `NoTokens` for the `IndexError` of `line[0]` on a line with no tokens.

A Dafny constructor cannot fail, so the Python constructor is modelled by
the factory `PedClsDataset.Create`. It returns either the new dataset or the
error. `PedClsDataset.constructor` sets the fields that the Python
constructor assigns before the manifests are read.

Truncation is Python's slice `[:get_num]`: for `get_num >= 0` the length is
`min(get_num, total)`; for `get_num < -1` the last `-get_num` entries are
dropped; the length is never negative.

## Model

| member | source | states |
|---|---|---|
| Datasets.ResolveRoots | datasets.py:23 | The loop over `ds_name_list` computes `Resolve`: one root per name in order, or the error for the first missing name. |
| Manifest.ResolveSpec | datasets.py:23 | Resolution succeeds iff every name is in the dictionary. On success, root `i` is `dict[names[i]]`. On failure, the error names the first missing name, and all names before it are present. |
| Manifest.ResolveErrPrefix | datasets.py:23 | Once a prefix of the names fails to resolve, the whole list fails with the same error; the comprehension stops at the first `KeyError`. |
| Manifest.Resolve | datasets.py:23 | A successful resolution has exactly one root per requested name. |
| Datasets.PedClsDataset.constructor | datasets.py:21-29 | Sets `dict`, `base_dir_list`, `txt_name` and `get_num` to the given values, with both lists still empty. |
| Datasets.PedClsDataset.Create | datasets.py:21-30 | Constructing the dataset fails iff `Build` fails, and with the same error. On success the fields hold the arguments and the resolved roots, and `images`/`labels` are exactly the index `Build` describes. The lists are parallel. |
| Datasets.PedClsDataset.InitImgLabel | datasets.py:32-59 | The nested loops over roots and lines, followed by the truncation, return exactly `LoadIndex` of the object's roots, manifest name and `get_num`. This includes the error of the first missing manifest or first blank line. |
| Datasets.PedClsDataset.AppendManifest | datasets.py:44-50 | The loop over one manifest's lines appends that manifest's parsed entries, in line order, to the running lists. It stops with `NoTokens` at the first line without tokens. |
| Datasets.PedClsDataset.Len | datasets.py:61-62 | `__len__` is the number of image paths. In a valid dataset this is also the number of labels. |
| Manifest.Tokens | datasets.py:45-46 | Definition: the tokens of a line are `line.replace('\\', sep).strip().split()`. ParseLineSpec states what they are. |
| Manifest.ParseLine | datasets.py:45-48 | Definition of one line's entry: no entry when there are no tokens, otherwise the root joined with the first token and the last token as label. ParseLineSpec, ParseLineRoundTrip and ParsePathLabelLine state its properties. |
| Manifest.ParseLineSpec | datasets.py:45-48 | A line has no entry iff it is blank once backslashes are replaced. Stripping before splitting changes nothing. The label is a single whitespace-free token, the line's last one. The image path ends with the line's first token. |
| Manifest.ParseLineRoundTrip | datasets.py:45-48 | Parsing the line `" ".join(fields) + "\n"` gives back the root joined with the first field and, as label, the last field, both with backslashes turned into the separator. A one-field line gives the same token as path and label. |
| Manifest.ParsePathLabelLine | datasets.py:45-48 | The usual line `path label` with no backslash parses to `(join(root, path), label)`. |
| Manifest.ParseLines | datasets.py:44-50 | A parsed manifest has one image and one label per line. A failure is `NoTokens` for this manifest, at a line that exists. |
| Manifest.ParseLinesOkIff | datasets.py:44-50 | A manifest parses iff every one of its lines has tokens. |
| Manifest.ParseLinesAt | datasets.py:44-50 | Entry `j` of both lists comes from line `j` of the manifest, so line order is kept. |
| Manifest.ParseLinesFirstError | datasets.py:46-47 | A failing manifest fails at its first line without tokens, and every line before it parses. |
| Manifest.ParseLinesErrPrefix | datasets.py:44-47 | An error on the first lines of a manifest is the error of the whole manifest; reading stops at the first bad line. |
| Manifest.ParseLinesStep | datasets.py:44-50 | Helper for the loop proofs, the definition of ParseLines unfolded at a prefix: reading one more line either fails with that line's number or appends exactly that line's path and label. |
| Manifest.ManifestPath | datasets.py:40 | The manifest path `join(root, 'dataset_txt', txt_name)` ends with `txt_name`. |
| Manifest.TotalLines | datasets.py:39-44 | Definition: the number of lines in the manifests of all roots, root by root. LoadRootsTotal and LoadIndexLength state lengths against it. |
| Manifest.LoadRoots | datasets.py:39-50 | On success the two lists are parallel. |
| Manifest.LoadRootsTotal | datasets.py:39-50 | A successful load has exactly one entry per line of every manifest, the total line count across all roots. |
| Manifest.LoadRootsOkIff | datasets.py:39-50 | Loading succeeds iff every root's manifest exists and has no line without tokens. |
| Manifest.LoadRootsFirstError | datasets.py:39-50 | A failing load reports the first root that cannot be loaded. That is either its missing manifest, or that manifest's own first error. Every earlier root loads. |
| Manifest.LoadRootsStep | datasets.py:39-50 | Helper for the loop proofs, the definition of LoadRoots unfolded at a prefix: loading one more root either fails with that root's error or appends that root's parsed manifest after the entries of the earlier roots. |
| Manifest.LoadRootsSnoc | datasets.py:39-50 | Helper, the definition of LoadRoots unfolded at a prefix: if the first `i + 1` roots load, then the first `i` load, root `i` is loadable, and its entries follow theirs as one block. |
| Manifest.LoadRootsPrefix | datasets.py:39-50 | Loading a prefix of the roots gives a prefix of both lists, so entries of earlier roots come before those of later roots. |
| Manifest.LoadRootsErrPrefix | datasets.py:39-50 | An error on the first roots is the error of the whole load; reading stops at the first failure. |
| Manifest.SliceTo | datasets.py:56-57 | Python's `s[:stop]` gives a prefix of `s`. Its length is `min(stop, len)` for `stop >= 0` and `max(0, len + stop)` for `stop < 0`. |
| Manifest.Truncate | datasets.py:52-57 | `get_num == -1` keeps the index unchanged. Any other value keeps a prefix of both lists of the same length, `min(get_num, n)` or `max(0, n + get_num)`, so the lists stay parallel. |
| Manifest.LoadIndex | datasets.py:32-59 | `initImgLabel` fails iff loading the roots fails. Its result is always parallel. |
| Manifest.Build | datasets.py:21-30 | Construction reports an unknown dataset name before any manifest is read, and the result is always parallel. |
| Manifest.LoadIndexLength | datasets.py:52-59 | Relates the result to the untruncated index and the total line count: always a prefix of both lists; with `get_num == -1` all lines and nothing dropped; with `get_num >= 0` exactly `min(get_num, total)` entries; below -1, `max(0, total + get_num)` entries. |
| Datasets.TwoLineManifest | datasets.py:21-59 | A single dataset whose manifest holds `a.jpg 0` and `b.jpg 1`, loaded with `get_num == -1`, gives two entries. They are the root joined with `a.jpg` and `b.jpg`, with labels `"0"` and `"1"` in that order. |
| Datasets.TwoLines | datasets.py:44-50 | The manifest lines `a.jpg 0` and `b.jpg 1` parse to two entries in order. |
| Datasets.TwoLinesEach | datasets.py:45-48 | Each of those two lines parses to its path and its label. |
| PyStr.ReplaceAll | datasets.py:45 | `str.replace` of one character keeps the length. |
| PyStr.ReplaceAllSpec | datasets.py:45 | `line.replace('\\', os.sep)` changes exactly the backslashes, each into the separator, and nothing else. |
| PyStr.ReplaceAllRemoves | datasets.py:45 | After the replacement no backslash is left, when the separator is not a backslash. |
| PyStr.ReplaceAllAppend | datasets.py:45 | Replacement distributes over concatenation. |
| PyStr.ReplaceAllWord | datasets.py:45 | Replacing a character by a non-whitespace one keeps a token whitespace-free. |
| PyStr.ReplaceEach | datasets.py:45 | Replacing in each word gives as many words, word `k` replaced in place. |
| PyStr.ReplaceAllUnsplit | datasets.py:45-46 | Replacing in `" ".join(ws)` is joining the replaced words, when the replaced character is not whitespace. |
| PyStr.IsSpace | datasets.py:46 | Definition of the whitespace that `strip()` and `split()` use: Python's `isspace` set, the code points 0x09-0x0D, 0x1C-0x20, 0x85, 0xA0, 0x1680, 0x2000-0x200A, 0x2028, 0x2029, 0x202F, 0x205F and 0x3000. |
| PyStr.TrimStart | datasets.py:46 | Definition of `lstrip()`; TrimStartSpec states what it removes. |
| PyStr.TrimEnd | datasets.py:46 | Definition of `rstrip()`; TrimEndSpec states what it removes. |
| PyStr.Strip | datasets.py:46 | Definition of `strip()` as `rstrip` after `lstrip`; StripSpec states what it keeps. |
| PyStr.Split | datasets.py:46 | Definition of `split()` with no argument: the maximal runs of non-whitespace, in order. SplitWords, SplitEmptyIffBlank, SplitStrip, SplitUnsplit and ConcatSplit state its properties. |
| PyStr.TrimStartSpec | datasets.py:46 | `lstrip` removes only leading whitespace and leaves nothing or a non-whitespace first character. |
| PyStr.TrimEndSpec | datasets.py:46 | `rstrip` removes only trailing whitespace and leaves nothing or a non-whitespace last character. |
| PyStr.StripSpec | datasets.py:46 | `strip()` is a contiguous piece of the line with only whitespace cut off on either side, and it neither starts nor ends with whitespace. |
| PyStr.WordLength | datasets.py:46 | The length of the first token is at most the length of the line. |
| PyStr.WordLengthSpec | datasets.py:46 | That many leading characters are non-whitespace, and the next one, if any, is whitespace. |
| PyStr.SplitWords | datasets.py:46 | Every token of `split()` is non-empty and whitespace-free. |
| PyStr.SplitEmptyIffBlank | datasets.py:46-47 | `split()` is empty iff the line is blank, which is when `line[0]` raises. |
| PyStr.SplitTrimStart | datasets.py:46 | Leading whitespace does not change the split. |
| PyStr.SplitSnocSpace | datasets.py:46 | A trailing whitespace character, such as the newline `readlines` keeps, does not change the split. |
| PyStr.SplitTrimEnd | datasets.py:46 | Trailing whitespace does not change the split. |
| PyStr.SplitStrip | datasets.py:46 | `line.strip().split() == line.split()`. |
| PyStr.SplitUnsplit | datasets.py:46 | Splitting `" ".join(ws)` gives back the words `ws`. |
| PyStr.ConcatSplit | datasets.py:46 | The tokens, concatenated, are exactly the line's non-whitespace characters in order. Nothing is lost, duplicated or reordered. |
| PyStr.NonSpaceAppend | datasets.py:46 | The non-whitespace characters of a concatenation are those of each part, in order. |
| PyStr.NonSpaceBlank | datasets.py:46 | A blank string has no non-whitespace characters. |
| PyStr.NonSpaceWord | datasets.py:46 | A whitespace-free string is its own non-whitespace part. |
| PosixPath.Join | datasets.py:40-47 | Definition of POSIX `os.path.join(base, part)`; JoinSpec states its properties. |
| PosixPath.JoinSpec | datasets.py:40-47 | `os.path.join(base, part)` ends with `part`. An absolute `part` is the whole result. Otherwise the result is `base`, then one separator exactly when `base` is non-empty and does not already end with one, then `part`. The result is absolute iff one of the two is. |
| PosixPath.Basename | datasets.py:47 | Helper, not called by the source, used to state a property of the join at this line. The file name is the suffix after the last separator and holds no separator. |
| PosixPath.BasenameAfterSep | datasets.py:47 | Helper for BasenameJoin: anything before a separator does not change the file name. |
| PosixPath.BasenameJoin | datasets.py:47 | Joining a token onto the root keeps the token's file name: `basename(join(root, t)) == basename(t)`. |

## Left out

- `__getitem__` (datasets.py:64-70) is not modelled. It opens the image with PIL, applies the torchvision transforms and converts the label to `int64`. These are foreign calls and floating point. The model keeps labels as the raw token strings, as the index does.
- The `image_transformer` field (datasets.py:25-28) is a torchvision pipeline and is not modelled.
- File reading (datasets.py:41-42) is a parameter: a map from path to the lines `readlines()` gives. Only "file missing" is modelled as an error; permission and decoding errors are not. The lines are taken as given, with or without their newline. The model does not split file contents into lines.
- `os.sep` is a parameter. `os.path.join` follows the POSIX rules. Windows drive letters and the `ntpath` rules are not modelled.
- `get_num` is an integer. Other values Python would accept in a slice, such as `None`, are not modelled.
- Python exceptions are values of `Manifest.Error`. The half-built object that Python discards after an exception is not modelled.
- The `sys.path` change and the imports at datasets.py:1-13 are process configuration and are not modelled.
- ddpm.py is not part of this model. It holds the diffusion noise schedule, random sampling, training, checkpoints and argument parsing. It also passes `img_size=` (ddpm.py:72), a keyword the constructor at datasets.py:21 does not accept; the model does not treat this as behaviour.
- The demo block at datasets.py:73-75 (a `DataLoader` with shuffling) is not modelled.
- Datasets.PedClsDataset.AppendManifest: the source writes this loop inline in `initImgLabel`. The model gives it a method of its own that returns the extended lists rather than appending to the caller's lists in place.
