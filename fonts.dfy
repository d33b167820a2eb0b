// Font-path resolution: the fonts directory sits beside the application file and holds
// the two Inter variable fonts; both must exist before anything is rendered.

module Fonts {

  /** Two-argument `os.path.join` on POSIX. */
  function Join(a: string, b: string): (r: string)
    ensures b != [] && b[0] == '/' ==> r == b
    ensures (b == [] || b[0] != '/') ==> a <= r && |b| <= |r| && r[|r| - |b|..] == b
    ensures (b == [] || b[0] != '/') && a != [] && a[|a| - 1] != '/' ==> |r| == |a| + 1 + |b| && r[|a|] == '/'
    ensures (b == [] || b[0] != '/') && (a == [] || a[|a| - 1] == '/') ==> |r| == |a| + |b|
  {
    if b != [] && b[0] == '/' then b
    else if a == [] || a[|a| - 1] == '/' then a + b
    else a + "/" + b
  }

  /** The last component of a path: what follows its last `/` (`os.path.basename`). */
  function Basename(p: string): (r: string)
    ensures '/' !in r && |r| <= |p| && r == p[|p| - |r|..]
    ensures |r| < |p| ==> p[|p| - |r| - 1] == '/'
  {
    if p == [] then []
    else if p[|p| - 1] == '/' then []
    else Basename(p[..|p| - 1]) + [p[|p| - 1]]
  }

  /** Joining a relative name with no `/` in it gives a path whose last component is that name. */
  lemma {:induction false} BasenameOfJoin(a: string, b: string)
    requires b != [] && '/' !in b
    ensures Basename(Join(a, b)) == b
  {
    var r := Join(a, b);
    assert r[|r| - |b|..] == b;
    assert |r| == |b| || r[|r| - |b| - 1] == '/';
    BasenameOfSuffix(r, b);
  }

  /** A path that ends in a `/`-free name, right after a `/` or at its start, has that name as its last component. */
  lemma {:induction false} BasenameOfSuffix(p: string, b: string)
    requires '/' !in b && |b| <= |p| && p[|p| - |b|..] == b
    requires |b| == |p| || p[|p| - |b| - 1] == '/'
    ensures Basename(p) == b
    decreases |b|
  {
    if b != [] {
      var p', b' := p[..|p| - 1], b[..|b| - 1];
      var last := b[|b| - 1];
      assert b == b' + [last];
      assert last in b && '/' !in b';
      assert p[|p| - 1] == last;
      assert p'[|p'| - |b'|..] == b' by {
        assert p'[|p'| - |b'|..] == p[|p| - |b|..][..|b'|];
      }
      if |b'| < |p'| {
        assert p'[|p'| - |b'| - 1] == p[|p| - |b| - 1];
      }
      BasenameOfSuffix(p', b');
    }
  }

  const FontsDirName := "fonts"
  const NormalFontName := "Inter-VariableFont_opsz,wght.ttf"
  const ItalicFontName := "Inter-Italic-VariableFont_opsz,wght.ttf"

  /** The fonts directory beside the application file. */
  function FontsDir(appDir: string): string {
    Join(appDir, FontsDirName)
  }

  function NormalFontPath(appDir: string): string {
    Join(FontsDir(appDir), NormalFontName)
  }

  function ItalicFontPath(appDir: string): string {
    Join(FontsDir(appDir), ItalicFontName)
  }

  lemma FontNames()
    ensures NormalFontName != [] && '/' !in NormalFontName
    ensures ItalicFontName != [] && '/' !in ItalicFontName
    ensures FontsDirName != [] && '/' !in FontsDirName
    ensures NormalFontName != ItalicFontName
  {
    assert NormalFontName[6] != ItalicFontName[6];
  }

  /**
   * Each font path is the fonts directory, a `/`, then the font's file name; the fonts
   * directory is the application directory followed by `fonts`; the two paths differ.
   */
  lemma FontPaths(appDir: string)
    ensures FontsDir(appDir) == (if appDir == [] || appDir[|appDir| - 1] == '/' then appDir else appDir + "/") + FontsDirName
    ensures NormalFontPath(appDir) == FontsDir(appDir) + "/" + NormalFontName
    ensures ItalicFontPath(appDir) == FontsDir(appDir) + "/" + ItalicFontName
    ensures Basename(NormalFontPath(appDir)) == NormalFontName
    ensures Basename(ItalicFontPath(appDir)) == ItalicFontName
    ensures NormalFontPath(appDir) != ItalicFontPath(appDir)
  {
    FontNames();
    var d := FontsDir(appDir);
    assert d[|d| - 1] == 's';
    BasenameOfJoin(d, NormalFontName);
    BasenameOfJoin(d, ItalicFontName);
  }

  /** A character that occurs neither in the application directory nor in the fixed names occurs in neither font path. */
  lemma FontPathChars(appDir: string, c: char)
    requires c !in appDir && c != '/' && c !in FontsDirName && c !in NormalFontName && c !in ItalicFontName
    ensures c !in NormalFontPath(appDir) && c !in ItalicFontPath(appDir)
  {
    FontPaths(appDir);
  }

  lemma FixedNamesRelative()
    ensures FontsDirName != [] && FontsDirName[0] == 'f'
    ensures NormalFontName != [] && NormalFontName[0] == 'I' && ItalicFontName != [] && ItalicFontName[0] == 'I'
  {
  }

  /** Both font paths start with the application directory, so every character of it occurs in both. */
  lemma FontPathsExtendAppDir(appDir: string)
    ensures appDir <= NormalFontPath(appDir) && appDir <= ItalicFontPath(appDir)
  {
    FixedNamesRelative();
    var d := FontsDir(appDir);
    assert appDir <= d;
    assert d <= NormalFontPath(appDir) && d <= ItalicFontPath(appDir);
  }

  /** The outcome of looking for the fonts. */
  datatype FontCheck = FontsFound(normal: string, italic: string) | FontsMissing

  /**
   * Both font paths when both files exist, otherwise a failure; `fileExists` stands for
   * `os.path.exists`.
   */
  function ResolveFonts(appDir: string, fileExists: string -> bool): (r: FontCheck)
    ensures r.FontsFound? <==> fileExists(NormalFontPath(appDir)) && fileExists(ItalicFontPath(appDir))
    ensures r.FontsFound? ==> r.normal == NormalFontPath(appDir) && r.italic == ItalicFontPath(appDir)
  {
    var normal, italic := NormalFontPath(appDir), ItalicFontPath(appDir);
    if !fileExists(normal) || !fileExists(italic) then FontsMissing
    else FontsFound(normal, italic)
  }

  /**
   * The paths probed, in order: `or` stops at the first missing file, so the italic
   * font is only looked for when the normal one exists.
   */
  function Probes(appDir: string, fileExists: string -> bool): (r: seq<string>)
    ensures 1 <= |r| <= 2 && r[0] == NormalFontPath(appDir)
    ensures |r| == 2 <==> fileExists(NormalFontPath(appDir))
    ensures |r| == 2 ==> r[1] == ItalicFontPath(appDir)
  {
    var normal := NormalFontPath(appDir);
    if fileExists(normal) then [normal, ItalicFontPath(appDir)] else [normal]
  }

  /** The fonts are found exactly when every probed path exists. */
  lemma ResolveMatchesProbes(appDir: string, fileExists: string -> bool)
    ensures ResolveFonts(appDir, fileExists).FontsFound? <==>
      forall i :: 0 <= i < |Probes(appDir, fileExists)| ==> fileExists(Probes(appDir, fileExists)[i])
  {
    var p := Probes(appDir, fileExists);
    if !ResolveFonts(appDir, fileExists).FontsFound? && fileExists(NormalFontPath(appDir)) {
      assert !fileExists(p[1]);
    }
  }
}
