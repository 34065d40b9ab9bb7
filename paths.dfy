/** The string manipulation the extractor does on paths: the extension test, the
    name of the staged copy and the names of the output images. Separators are those
    of the Windows file-system API: '\', '/' and the volume separator ':'. */
module Paths {
  import opened Assets

  /** The container extension the extractor looks for. */
  const Xnb: string := ".xnb"

  /** What the staged copy's name gets appended to the original file name. */
  const TmpMarker: string := ".tmp.xnb"

  predicate IsSeparator(c: char) {
    c == '\\' || c == '/' || c == ':'
  }

  // ---------------------------------------------------------------------------
  // Ordinal String.Replace(old, new): every non-overlapping occurrence, left to right
  // ---------------------------------------------------------------------------

  /** `pat` occurs somewhere in `s`. */
  predicate Occurs(s: string, pat: string)
    requires |pat| > 0
    decreases |s|
  {
    |s| >= |pat| && (s[..|pat|] == pat || Occurs(s[1..], pat))
  }

  /** Replaces every occurrence of `pat` in `s` by `rep`, scanning left to right
      and resuming after each replaced occurrence. */
  function ReplaceAll(s: string, pat: string, rep: string): (r: string)
    requires |pat| > 0
    ensures |rep| == |pat| ==> |r| == |s|
    ensures |rep| >= |pat| ==> |r| >= |s|
    decreases |s|
  {
    if |s| < |pat| then s
    else if s[..|pat|] == pat then rep + ReplaceAll(s[|pat|..], pat, rep)
    else [s[0]] + ReplaceAll(s[1..], pat, rep)
  }

  /** A string without the pattern comes back unchanged; a replacement at least as long
      as the pattern never shortens the string, and a longer one lengthens it as soon
      as the pattern occurs. */
  lemma {:induction false} ReplaceAllLength(s: string, pat: string, rep: string)
    requires |pat| > 0
    ensures var r := ReplaceAll(s, pat, rep);
      && (!Occurs(s, pat) ==> r == s)
      && (|rep| >= |pat| ==> |r| >= |s|)
      && (Occurs(s, pat) && |rep| > |pat| ==> |r| > |s|)
    decreases |s|
  {
    if |s| < |pat| {
    } else if s[..|pat|] == pat {
      ReplaceAllLength(s[|pat|..], pat, rep);
    } else {
      ReplaceAllLength(s[1..], pat, rep);
      assert s == [s[0]] + s[1..];
    }
  }

  /** Replacing a pattern by itself changes nothing. */
  lemma {:induction false} ReplaceBySelf(s: string, pat: string)
    requires |pat| > 0
    ensures ReplaceAll(s, pat, pat) == s
    decreases |s|
  {
    if |s| < |pat| {
    } else if s[..|pat|] == pat {
      ReplaceBySelf(s[|pat|..], pat);
      assert s == pat + s[|pat|..];
    } else {
      ReplaceBySelf(s[1..], pat);
      assert s == [s[0]] + s[1..];
    }
  }

  /** Two replacements of the same length give different results as soon as the
      pattern occurs at all. */
  lemma {:induction false} ReplaceAllDiffers(s: string, pat: string, r1: string, r2: string)
    requires |pat| > 0 && Occurs(s, pat)
    requires |r1| == |r2| && r1 != r2
    ensures ReplaceAll(s, pat, r1) != ReplaceAll(s, pat, r2)
    decreases |s|
  {
    var a, b := ReplaceAll(s, pat, r1), ReplaceAll(s, pat, r2);
    if s[..|pat|] == pat {
      assert a[..|r1|] == r1 && b[..|r2|] == r2;
    } else {
      ReplaceAllDiffers(s[1..], pat, r1, r2);
      assert a[1..] == ReplaceAll(s[1..], pat, r1);
      assert b[1..] == ReplaceAll(s[1..], pat, r2);
    }
  }

  /** A trailing ".xnb" is always replaced, whatever comes before it: the pattern has
      no proper prefix that is also a suffix, so no earlier occurrence can swallow it. */
  lemma ReplaceTrailingXnb(a: string, rep: string)
    ensures ReplaceAll(a + Xnb, Xnb, rep) == ReplaceAll(a, Xnb, rep) + rep
  {
    assert Xnb[1] != Xnb[0] && Xnb[2] != Xnb[0] && Xnb[3] != Xnb[0];
    ReplaceTrailing(a, Xnb, rep);
  }

  /** The same for any four-character pattern whose first character does not recur
      in it. */
  lemma {:induction false} ReplaceTrailing(a: string, x: string, rep: string)
    requires |x| == 4 && x[1] != x[0] && x[2] != x[0] && x[3] != x[0]
    ensures ReplaceAll(a + x, x, rep) == ReplaceAll(a, x, rep) + rep
    decreases |a|
  {
    var s := a + x;
    if |a| == 0 {
      AppendDrop(x, [], 4);
      assert s == x + [] && x[..4] == x && x[4..] == [];
      ReplaceAllMatches(s, x, rep);
    } else if |a| < 4 {
      ShortPrefixMismatch(a, x);
      AppendDrop(a, x, 1);
      ReplaceAllSkips(s, x, rep);
      ReplaceTrailing(a[1..], x, rep);
      assert ReplaceAll(a[1..], x, rep) == a[1..] && ReplaceAll(a, x, rep) == a;
      Regroup([a[0]], a[1..], rep);
      assert [a[0]] + a[1..] == a;
    } else if a[..4] == x {
      AppendDrop(a, x, 4);
      ReplaceAllMatches(s, x, rep);
      ReplaceAllMatches(a, x, rep);
      ReplaceTrailing(a[4..], x, rep);
      Regroup(rep, ReplaceAll(a[4..], x, rep), rep);
    } else {
      AppendDrop(a, x, 1);
      ReplaceAllSkips(s, x, rep);
      ReplaceAllSkips(a, x, rep);
      ReplaceTrailing(a[1..], x, rep);
      Regroup([a[0]], ReplaceAll(a[1..], x, rep), rep);
    }
  }

  lemma Regroup(p: string, u: string, q: string)
    ensures p + (u + q) == (p + u) + q
  {
  }

  /** Fewer than four characters and then the pattern: the first four are not the
      pattern, because its first character does not recur in it. */
  lemma ShortPrefixMismatch(a: string, x: string)
    requires 0 < |a| < 4 && |x| == 4 && x[1] != x[0] && x[2] != x[0] && x[3] != x[0]
    ensures (a + x)[..|x|] != x
  {
    var s := a + x;
    assert s[|a|] == x[0];
    assert s[..|x|][|a|] == x[0];
  }

  /** The first occurrence of a four-character pattern such as ".xnb" is replaced where
      it stands, and the scan resumes after it: when `a` and the first three characters
      of the pattern hold no occurrence, the result is `a`, the replacement, and the
      rest replaced in turn. So a directory named like an input is renamed too. */
  lemma {:induction false} FirstOccurrenceReplaced(a: string, x: string, b: string, rep: string)
    requires |x| == 4 && !Occurs(a + x[..3], x)
    ensures ReplaceAll(a + x + b, x, rep) == a + rep + ReplaceAll(b, x, rep)
    decreases |a|
  {
    var s := a + x + b;
    var y := ReplaceAll(b, x, rep);
    if |a| == 0 {
      PatternAtFront(x, b, rep);
      assert s == x + b && a + rep + y == rep + y;
    } else {
      NoPatternAtFront(a, x, b);
      ReplaceAllSkips(s, x, rep);
      FirstOccurrenceReplaced(a[1..], x, b, rep);
      ConsJoin(a, rep, y);
    }
  }

  lemma PatternAtFront(x: string, b: string, rep: string)
    requires |x| > 0
    ensures ReplaceAll(x + b, x, rep) == rep + ReplaceAll(b, x, rep)
  {
    AppendDrop(x, b, |x|);
    assert (x + b)[..|x|] == x && x[|x|..] == [];
    ReplaceAllMatches(x + b, x, rep);
  }

  lemma ConsJoin(a: string, rep: string, y: string)
    requires |a| > 0
    ensures [a[0]] + (a[1..] + rep + y) == a + rep + y
  {
    assert [a[0]] + a[1..] == a;
  }

  /** Where the pattern starts, it is replaced and the scan resumes after it. */
  lemma ReplaceAllMatches(s: string, pat: string, rep: string)
    requires 0 < |pat| <= |s| && s[..|pat|] == pat
    ensures ReplaceAll(s, pat, rep) == rep + ReplaceAll(s[|pat|..], pat, rep)
  {
  }

  /** Where the pattern does not start, the first character is kept. */
  lemma ReplaceAllSkips(s: string, pat: string, rep: string)
    requires 0 < |pat| <= |s| && s[..|pat|] != pat
    ensures ReplaceAll(s, pat, rep) == [s[0]] + ReplaceAll(s[1..], pat, rep)
  {
  }

  /** Before the first occurrence of a four-character pattern the scan moves on one
      character at a time. */
  lemma NoPatternAtFront(a: string, x: string, b: string)
    requires |x| == 4 && |a| > 0 && !Occurs(a + x[..3], x)
    ensures var s := a + x + b;
      && s[..|x|] != x && s[0] == a[0] && s[1..] == a[1..] + x + b
      && !Occurs(a[1..] + x[..3], x)
  {
    FrontAgrees(a, x, b);
    DropFront(a, x, b);
  }

  lemma FrontAgrees(a: string, x: string, b: string)
    requires |x| == 4 && |a| > 0
    ensures (a + x + b)[..4] == (a + x[..3])[..4]
  {
    var s, t := a + x + b, a + x[..3];
    forall k | 0 <= k < 4 ensures s[k] == t[k] {
      if k >= |a| { assert s[k] == x[k - |a|]; }
    }
  }

  lemma DropFront(a: string, x: string, b: string)
    requires |x| == 4 && |a| > 0
    ensures (a + x + b)[0] == a[0] && (a + x + b)[1..] == a[1..] + x + b
    ensures (a + x[..3])[1..] == a[1..] + x[..3]
  {
  }

  /** An input inside a directory named "d.xnb" is written into "d.png" (or "d.jpeg"),
      a different directory. */
  lemma XnbDirectoryIsRenamed(path: string, ext: string)
    requires path == "d.xnb\\a.xnb"
    ensures ReplaceAll(path, Xnb, "." + ext) == "d" + "." + ext + "\\a" + "." + ext
  {
    var name := "\\a" + Xnb;
    assert path == "d" + Xnb + name;
    NoXnbBeforeDirectoryExtension();
    FirstOccurrenceReplaced("d", Xnb, name, "." + ext);
    ReplaceTrailingXnb("\\a", "." + ext);
    assert ReplaceAll("\\a", Xnb, "." + ext) == "\\a";
    JoinReplaced("d", "\\a", ext);
  }

  lemma NoXnbBeforeDirectoryExtension()
    ensures !Occurs("d" + Xnb[..3], Xnb)
  {
    var head := "d" + Xnb[..3];
    assert head[..4][0] != Xnb[0] && |head[1..]| < |Xnb|;
  }

  lemma JoinReplaced(d: string, a: string, ext: string)
    ensures d + ("." + ext) + (a + ("." + ext)) == d + "." + ext + a + "." + ext
  {
  }

  /** Splitting `a + b` inside `a`. */
  lemma AppendDrop(a: string, b: string, k: nat)
    requires k <= |a|
    ensures (a + b)[k..] == a[k..] + b
    ensures |a| >= 4 ==> (a + b)[..4] == a[..4]
    ensures k > 0 ==> (a + b)[0] == a[0]
  {
  }

  // ---------------------------------------------------------------------------
  // ToLower, restricted to ASCII
  // ---------------------------------------------------------------------------

  function Lower(c: char): (r: char)
    ensures 'A' <= c <= 'Z' ==> 'a' <= r <= 'z' && r as int == c as int + ('a' as int - 'A' as int)
    ensures !('A' <= c <= 'Z') ==> r == c
    ensures 'a' <= r <= 'z' ==> r == c || r == (c as int + 32) as char
  {
    if 'A' <= c <= 'Z' then (c as int + 32) as char else c
  }

  function ToLower(s: string): (r: string)
  {
    seq(|s|, i requires 0 <= i < |s| => Lower(s[i]))
  }

  /** Lower-casing commutes with taking a suffix. */
  lemma ToLowerSuffix(s: string, k: nat)
    requires k <= |s|
    ensures ToLower(s[k..]) == ToLower(s)[k..]
  {
  }

  // ---------------------------------------------------------------------------
  // FileInfo.Name and FileInfo.Extension
  // ---------------------------------------------------------------------------

  /** The last component of a path: everything after its last separator. */
  function FileName(path: string): (r: string)
    ensures |r| <= |path|
    decreases |path|
  {
    if |path| == 0 || IsSeparator(path[|path| - 1]) then ""
    else FileName(path[..|path| - 1]) + [path[|path| - 1]]
  }

  /** The name is a suffix of the path and holds no separator. */
  lemma {:induction false} FileNameShape(path: string)
    ensures var r := FileName(path);
      && |r| <= |path| && r == path[|path| - |r|..]
      && forall k :: 0 <= k < |r| ==> !IsSeparator(r[k])
    decreases |path|
  {
    if |path| > 0 && !IsSeparator(path[|path| - 1]) {
      var p := path[..|path| - 1];
      FileNameShape(p);
      var r := FileName(path);
      assert r == FileName(p) + [path[|path| - 1]];
      assert p[|p| - |FileName(p)|..] + [path[|path| - 1]] == path[|path| - |r|..];
    }
  }

  /** The name is everything after the LAST separator: when it is not the whole path,
      the character just before it is a separator. */
  lemma {:induction false} FileNameIsMaximal(path: string)
    ensures var r := FileName(path); |r| < |path| ==> IsSeparator(path[|path| - |r| - 1])
    decreases |path|
  {
    if |path| > 0 && !IsSeparator(path[|path| - 1]) {
      var p := path[..|path| - 1];
      FileNameIsMaximal(p);
      assert |FileName(path)| == |FileName(p)| + 1;
      if |FileName(p)| < |p| {
        assert path[|path| - |FileName(path)| - 1] == p[|p| - |FileName(p)| - 1];
      }
    }
  }

  /** Path.GetExtension, scanning the first `n` characters from the right: the first
      '.' found, with everything after it, unless it is the last character; nothing
      once a separator is met. */
  function ExtensionScan(path: string, n: nat): (r: string)
    requires n <= |path|
    requires forall k :: n <= k < |path| ==> path[k] != '.' && !IsSeparator(path[k])
    ensures r == "" || (2 <= |r| <= |path| && r[0] == '.' && r == path[|path| - |r|..])
    ensures forall k :: 1 <= k < |r| ==> r[k] != '.' && !IsSeparator(r[k])
    decreases n
  {
    if n == 0 then ""
    else if path[n - 1] == '.' then (if n != |path| then path[n - 1..] else "")
    else if IsSeparator(path[n - 1]) then ""
    else ExtensionScan(path, n - 1)
  }

  /** FileInfo.Extension: the extension of the last path component, dot included. */
  function Extension(path: string): (r: string)
  {
    ExtensionScan(path, |path|)
  }

  /** The extractor's extension test: `file.Extension.ToLower() == ".xnb"`. */
  predicate HasXnbExtension(path: string) {
    ToLower(Extension(path)) == Xnb
  }

  /** A path whose last four characters are '.', 'x', 'n', 'b' in any case has those
      four characters as its extension. */
  lemma ExtensionOfXnbSuffix(path: string)
    requires |path| >= 4
    requires Lower(path[|path| - 1]) == 'b' && Lower(path[|path| - 2]) == 'n'
    requires Lower(path[|path| - 3]) == 'x' && path[|path| - 4] == '.'
    ensures Extension(path) == path[|path| - 4..]
  {
    var n := |path|;
    assert ExtensionScan(path, n - 3) == path[n - 4..];
    assert ExtensionScan(path, n - 2) == ExtensionScan(path, n - 3);
    assert ExtensionScan(path, n - 1) == ExtensionScan(path, n - 2);
    assert ExtensionScan(path, n) == ExtensionScan(path, n - 1);
  }

  /** The extension test holds exactly when the path ends in ".xnb" in any mixture
      of upper and lower case. */
  lemma XnbExtensionIsSuffix(path: string)
    ensures HasXnbExtension(path) <==> |path| >= 4 && ToLower(path[|path| - 4..]) == Xnb
  {
    var n := |path|;
    if n >= 4 && ToLower(path[n - 4..]) == Xnb {
      var t := path[n - 4..];
      assert ToLower(t)[0] == '.' && ToLower(t)[1] == 'x' && ToLower(t)[2] == 'n' && ToLower(t)[3] == 'b';
      assert Lower(t[0]) == '.';
      ExtensionOfXnbSuffix(path);
    }
    if HasXnbExtension(path) {
      var r := Extension(path);
      assert |ToLower(r)| == 4;
    }
  }

  /** Case does not matter to the extension test: two paths that agree once
      lower-cased either both pass or both fail. */
  lemma XnbExtensionIgnoresCase(p: string, q: string)
    requires ToLower(p) == ToLower(q)
    ensures HasXnbExtension(p) <==> HasXnbExtension(q)
  {
    XnbExtensionIsSuffix(p);
    XnbExtensionIsSuffix(q);
    if |p| >= 4 {
      ToLowerSuffix(p, |p| - 4);
      ToLowerSuffix(q, |q| - 4);
    }
  }

  // ---------------------------------------------------------------------------
  // Path.Combine and the staged copy
  // ---------------------------------------------------------------------------

  predicate IsRooted(path: string) {
    (|path| >= 1 && (path[0] == '\\' || path[0] == '/')) || (|path| >= 2 && path[1] == ':')
  }

  /** Path.Combine(dir, name): `name` alone when it is rooted or `dir` is empty;
      otherwise `dir`, a '\' unless `dir` already ends in a separator, and `name`. */
  function Combine(dir: string, name: string): (r: string)
  {
    if IsRooted(name) || dir == "" then name
    else if IsSeparator(dir[|dir| - 1]) then dir + name
    else dir + "\\" + name
  }

  /** Path.Combine ends with the name, and starts with the directory when the name is
      not rooted and the directory not empty. */
  lemma CombineShape(dir: string, name: string)
    ensures var r := Combine(dir, name);
      && (!IsRooted(name) && dir != "" ==> |r| >= |dir| && r[..|dir|] == dir)
      && |r| >= |name| && r[|r| - |name|..] == name
  {
  }

  /** The name the last component of `dir + sep + name` has, when `name` holds no separator. */
  lemma {:induction false} FileNameOfCombined(prefix: string, name: string)
    requires |prefix| > 0 && IsSeparator(prefix[|prefix| - 1])
    requires forall k :: 0 <= k < |name| ==> !IsSeparator(name[k])
    ensures FileName(prefix + name) == name
    decreases |name|
  {
    var s := prefix + name;
    if |name| == 0 {
      assert s == prefix;
    } else {
      var n, last := name[..|name| - 1], name[|name| - 1];
      assert s[|s| - 1] == last && !IsSeparator(last);
      assert s[..|s| - 1] == prefix + n;
      FileNameOfCombined(prefix, n);
      assert FileName(s) == FileName(prefix + n) + [last];
      assert n + [last] == name;
    }
  }

  /** Where a file is copied before it is decoded:
      `Path.Combine(BaseDirectory, $"{file.Name}.tmp.xnb")`. */
  function StagedPath(baseDir: string, file: string): (r: string)
  {
    Combine(baseDir, FileName(file) + TmpMarker)
  }

  /** The staged copy's name does not look rooted to Path.Combine. */
  lemma StagedNameNotRooted(f: string)
    requires forall k :: 0 <= k < |f| ==> !IsSeparator(f[k])
    ensures !IsRooted(f + TmpMarker)
  {
    var name := f + TmpMarker;
    if |f| >= 2 {
      assert name[0] == f[0] && name[1] == f[1];
    } else if |f| == 1 {
      assert name[0] == f[0] && name[1] == '.';
    } else {
      assert name == TmpMarker;
    }
  }

  lemma NoSeparatorInStagedName(f: string)
    requires forall k :: 0 <= k < |f| ==> !IsSeparator(f[k])
    ensures forall k :: 0 <= k < |f + TmpMarker| ==> !IsSeparator((f + TmpMarker)[k])
  {
    var m := TmpMarker;
    assert m[0] == '.' && m[1] == 't' && m[2] == 'm' && m[3] == 'p';
    assert m[4] == '.' && m[5] == 'x' && m[6] == 'n' && m[7] == 'b';
    forall k | 0 <= k < |f + m| ensures !IsSeparator((f + m)[k]) {
      if k >= |f| {
        var j := k - |f|;
        assert (f + m)[k] == m[j];
        assert j == 0 || j == 1 || j == 2 || j == 3 || j == 4 || j == 5 || j == 6 || j == 7;
      }
    }
  }

  /** Combining a directory with a plain name puts the name in that directory. */
  lemma CombinePlainName(dir: string, name: string)
    requires dir != "" && !IsRooted(name)
    requires forall k :: 0 <= k < |name| ==> !IsSeparator(name[k])
    ensures FileName(Combine(dir, name)) == name
  {
    if IsSeparator(dir[|dir| - 1]) {
      FileNameOfCombined(dir, name);
    } else {
      assert Combine(dir, name) == (dir + "\\") + name;
      FileNameOfCombined(dir + "\\", name);
    }
  }

  /** The staged copy sits directly in the base directory and is named after the
      input's own file name with ".tmp.xnb" appended. */
  lemma StagedPathShape(baseDir: string, file: string)
    requires baseDir != ""
    ensures var r := StagedPath(baseDir, file);
      && |r| >= |baseDir| && r[..|baseDir|] == baseDir
      && FileName(r) == FileName(file) + TmpMarker
  {
    var f := FileName(file);
    FileNameShape(file);
    StagedNameNotRooted(f);
    NoSeparatorInStagedName(f);
    CombineShape(baseDir, f + TmpMarker);
    CombinePlainName(baseDir, f + TmpMarker);
  }

  /** The staged copy itself passes the extractor's extension test. */
  lemma StagedPathIsXnb(baseDir: string, file: string)
    ensures HasXnbExtension(StagedPath(baseDir, file))
  {
    var name := FileName(file) + TmpMarker;
    var r := StagedPath(baseDir, file);
    CombineShape(baseDir, name);
    assert name[|name| - 4..] == Xnb;
    assert r[|r| - 4..] == name[|name| - 4..];
    XnbSuffixPasses(r);
  }

  /** A path ending in ".xnb" as written passes the extension test. */
  lemma XnbSuffixPasses(path: string)
    requires |path| >= 4 && path[|path| - 4..] == Xnb
    ensures HasXnbExtension(path)
  {
    var n := |path|;
    assert path[n - 1] == 'b' && path[n - 2] == 'n' && path[n - 3] == 'x' && path[n - 4] == '.';
    ExtensionOfXnbSuffix(path);
    assert ToLower(Xnb) == Xnb;
  }

  // ---------------------------------------------------------------------------
  // Output names
  // ---------------------------------------------------------------------------

  /** `SaveImagesAs == ImageExtension.Png ? "png" : "jpeg"` */
  function ExtensionText(format: ImageExtension): string {
    if format == Png then "png" else "jpeg"
  }

  /** The single-texture target: `file.FullName.Replace(".xnb", $".{extension}")`. */
  function TextureTarget(file: string, format: ImageExtension): (r: string)
    ensures format == Png ==> |r| == |file|
    ensures |r| >= |file|
  {
    ReplaceAll(file, Xnb, "." + ExtensionText(format))
  }

  /** The replacement text of cube face `face`: `$"_{i}.{extension}"`. */
  function FaceSuffix(face: nat, format: ImageExtension): (r: string)
    requires face < 6
    ensures |r| == 2 + |"." + ExtensionText(format)|
  {
    "_" + [('0' as int + face) as char] + "." + ExtensionText(format)
  }

  /** The target of cube face `face`: `file.FullName.Replace(".xnb", $"_{i}.{extension}")`. */
  function FaceTarget(file: string, face: nat, format: ImageExtension): (r: string)
    requires face < 6
    ensures |r| >= |file|
  {
    ReplaceAll(file, Xnb, FaceSuffix(face, format))
  }

  /** The targets of the first `n` faces, in face order. */
  function FaceTargets(file: string, format: ImageExtension, n: nat): seq<string>
    requires n <= 6
  {
    seq(n, i requires 0 <= i < n => FaceTarget(file, i, format))
  }

  /** The single-texture target is the input path itself exactly when the input holds
      no lower-case ".xnb": an input named "A.XNB" passes the extension test and is
      then its own target. */
  lemma TextureTargetIsInputIff(file: string, format: ImageExtension)
    ensures TextureTarget(file, format) == file <==> !Occurs(file, Xnb)
  {
    ReplaceAllLength(file, Xnb, "." + ExtensionText(format));
    if Occurs(file, Xnb) && format == Png {
      ReplaceBySelf(file, Xnb);
      ReplaceAllDiffers(file, Xnb, ".png", Xnb);
    }
  }

  /** A path "stem.xnb" whose stem holds no ".xnb" gets "stem.png" or "stem.jpeg". */
  lemma TextureTargetOfPlainName(stem: string, format: ImageExtension)
    requires !Occurs(stem, Xnb)
    ensures TextureTarget(stem + Xnb, format) == stem + "." + ExtensionText(format)
  {
    ReplaceAllLength(stem, Xnb, "." + ExtensionText(format));
    ReplaceTrailingXnb(stem, "." + ExtensionText(format));
  }

  /** A path "stem.xnb" whose stem holds no ".xnb" gets "stem_i.png" for face i. */
  lemma FaceTargetOfPlainName(stem: string, face: nat, format: ImageExtension)
    requires face < 6 && !Occurs(stem, Xnb)
    ensures FaceTarget(stem + Xnb, face, format) == stem + FaceSuffix(face, format)
  {
    ReplaceAllLength(stem, Xnb, FaceSuffix(face, format));
    ReplaceTrailingXnb(stem, FaceSuffix(face, format));
  }

  /** The six face targets of an input that holds ".xnb" are pairwise different;
      an input that does not is the target of all six faces. */
  lemma FaceTargetsDistinct(file: string, i: nat, j: nat, format: ImageExtension)
    requires i < 6 && j < 6
    ensures Occurs(file, Xnb) && i != j ==> FaceTarget(file, i, format) != FaceTarget(file, j, format)
    ensures !Occurs(file, Xnb) ==> FaceTarget(file, i, format) == file
  {
    ReplaceAllLength(file, Xnb, FaceSuffix(i, format));
    if Occurs(file, Xnb) && i != j {
      var si, sj := FaceSuffix(i, format), FaceSuffix(j, format);
      assert si[1] != sj[1];
      ReplaceAllDiffers(file, Xnb, si, sj);
    }
  }
}
