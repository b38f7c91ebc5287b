/**
 * The upload gate: a file is accepted exactly when the lower-cased extension of
 * its original name, computed as Node's POSIX `path.extname` computes it, is
 * `.csv`, `.xlsx` or `.xls`.
 */
module FileFilter {
  import opened Results

  const RejectMessage := "Only CSV, XLS, and XLSX files are allowed"

  /** The name with every trailing '/' removed. */
  function StripTrailingSlashes(p: string): (r: string)
    ensures |r| <= |p| && r == p[..|r|]
    ensures r == [] || r[|r| - 1] != '/'
  {
    if |p| > 0 && p[|p| - 1] == '/' then StripTrailingSlashes(p[..|p| - 1]) else p
  }

  /** The last path component: everything after the last '/'. */
  function BaseName(p: string): (r: string)
    ensures |r| <= |p| && r == p[|p| - |r|..]
    ensures '/' !in r
  {
    if p == [] || p[|p| - 1] == '/' then [] else BaseName(p[..|p| - 1]) + [p[|p| - 1]]
  }

  /** The suffix of `b` that starts at its last '.', or "" when `b` has no '.'. */
  function DotSuffix(b: string): (r: string)
    ensures |r| <= |b| && r == b[|b| - |r|..]
    ensures r == [] || (r[0] == '.' && '.' !in r[1..])
    ensures r == [] <==> '.' !in b
  {
    if b == [] then []
    else if b[|b| - 1] == '.' then "."
    else
      var d := DotSuffix(b[..|b| - 1]);
      assert b == b[..|b| - 1] + [b[|b| - 1]];
      if d == [] then [] else d + [b[|b| - 1]]
  }

  /**
   * Node's POSIX `path.extname`: trailing slashes are ignored, and the extension
   * runs from the last '.' of the last component to its end, except when that
   * '.' is the component's first character or the component is "..".
   */
  function ExtName(path: string): (r: string)
  {
    var b := BaseName(StripTrailingSlashes(path));
    var d := DotSuffix(b);
    if d == [] || |d| == |b| || b == ".." then [] else d
  }

  function LowerChar(c: char): char
  {
    if 'A' <= c <= 'Z' then (c as int + 32) as char else c
  }

  /** `String.prototype.toLowerCase`, restricted to the ASCII letters. */
  function ToLower(s: string): string
  {
    seq(|s|, i requires 0 <= i < |s| => LowerChar(s[i]))
  }

  predicate AllowedExtension(ext: string)
  {
    ext == ".csv" || ext == ".xlsx" || ext == ".xls"
  }

  /** `fileFilter`: the multer callback either accepts the file or fails with an error. */
  function FileFilter(originalName: string): (r: Result<bool>)
    ensures r == Ok(true) || r == Err(RejectMessage)
  {
    var ext := ToLower(ExtName(originalName));
    if AllowedExtension(ext) then Ok(true) else Err(RejectMessage)
  }

  /** An extension is a suffix of the name that starts with its only '.' and holds no '/'. */
  lemma ExtNameShape(path: string)
    ensures var e := ExtName(path);
      e == [] || (e[0] == '.' && |e| <= |path| && '.' !in e[1..] && '/' !in e)
  {
  }

  /** A name whose last component holds no '.' has no extension and is rejected. */
  lemma {:induction false} NoDotRejected(path: string)
    requires '.' !in BaseName(StripTrailingSlashes(path))
    ensures ExtName(path) == []
    ensures FileFilter(path) == Err(RejectMessage)
  {
    assert ToLower([]) == [];
  }

  /**
   * For a file named `stem + ext`, where `stem` is a non-empty name without '/'
   * and `ext` is '.' followed by at least one character that is neither '.' nor
   * '/', the extension Node reports is exactly `ext`.
   */
  lemma {:induction false} ExtNameOfStemAndExt(stem: string, ext: string)
    requires stem != [] && '/' !in stem
    requires |ext| >= 2 && ext[0] == '.' && '.' !in ext[1..] && '/' !in ext
    ensures ExtName(stem + ext) == ext
  {
    var name := stem + ext;
    assert StripTrailingSlashes(name) == name;
    BaseNameNoSlash(name);
    DotSuffixOfExt(stem, ext);
  }

  /** The gate accepts `stem + ext` exactly when `ext`, lower-cased, is an allowed extension. */
  lemma AcceptsExactlyAllowed(stem: string, ext: string)
    requires stem != [] && '/' !in stem
    requires |ext| >= 2 && ext[0] == '.' && '.' !in ext[1..] && '/' !in ext
    ensures FileFilter(stem + ext) == Ok(true) <==> AllowedExtension(ToLower(ext))
    ensures FileFilter(stem + ext) == Err(RejectMessage) <==> !AllowedExtension(ToLower(ext))
  {
    ExtNameOfStemAndExt(stem, ext);
  }

  lemma {:induction false} BaseNameNoSlash(p: string)
    requires '/' !in p
    ensures BaseName(p) == p
  {
    if p != [] {
      BaseNameNoSlash(p[..|p| - 1]);
      assert p == p[..|p| - 1] + [p[|p| - 1]];
    }
  }

  lemma {:induction false} DotSuffixOfExt(stem: string, ext: string)
    requires |ext| >= 1 && ext[0] == '.' && '.' !in ext[1..]
    ensures DotSuffix(stem + ext) == ext
    decreases |ext|
  {
    var b := stem + ext;
    if |ext| == 1 {
      assert b[|b| - 1] == '.';
    } else {
      var shorter := ext[..|ext| - 1];
      assert b[..|b| - 1] == stem + shorter;
      assert '.' !in shorter[1..] by { assert shorter[1..] == ext[1..][..|ext| - 2]; }
      assert b[|b| - 1] == ext[|ext| - 1] && ext[|ext| - 1] in ext[1..];
      DotSuffixOfExt(stem, shorter);
      assert ext == shorter + [ext[|ext| - 1]];
    }
  }
}
