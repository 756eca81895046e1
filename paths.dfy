/** The file names and object-store keys that thumbnail_maker.py derives from an
    article's identifier and its image link. */
module Paths {
  import opened Strings

  /** `download_image`'s extension: the text after the last `.` of the link's last
      `/`-separated segment, or that whole segment when it has no `.` (lines 161-162). */
  function Extension(link: string): (ext: string)
    ensures '/' !in ext && '.' !in ext
    ensures EndsWith(LastField(link, '/'), ext)
    ensures '.' !in LastField(link, '/') ==> ext == LastField(link, '/')
    ensures SeparatedSuffix(LastField(link, '/'), ext, '.')
  {
    var segment := LastField(link, '/');
    var ext := LastField(segment, '.');
    ExtensionParts(segment, ext);
    ext
  }

  /** The last `.`-field of a segment without `/`: it holds no `/` either, and a `.`
      stands before it unless it is the whole segment. */
  lemma ExtensionParts(segment: string, ext: string)
    requires '/' !in segment && ext == LastField(segment, '.')
    ensures '/' !in ext
    ensures SeparatedSuffix(segment, ext, '.')
  {
    SuffixChars(segment, ext);
    LastFieldSeparated(segment, '.');
  }

  /** `download_image`'s file name `"{doi}.{ext}"` (line 163). It reads back as the
      identifier, a `.` and the link's extension: the identifier and a `.` are its
      prefix and the extension is its last `.`-field. */
  function DownloadName(doi: string, link: string): (name: string)
    ensures StartsWith(name, doi + ".")
    ensures LastField(name, '.') == Extension(link)
    ensures '/' !in doi ==> '/' !in name
    ensures |name| == |doi| + 1 + |Extension(link)|
  {
    var ext := Extension(link);
    LastFieldAfterSeparator(doi, '.', ext);
    assert doi + "." + ext == doi + ['.'] + ext;
    doi + "." + ext
  }

  /** `WORKSPACE.child(file_name)`: the downloaded file's path inside the workspace
      directory (line 164). For an identifier without `/`, the download name is the
      path's last component. */
  function DownloadPath(workspace: string, doi: string, link: string): (path: string)
    ensures StartsWith(path, workspace + "/")
    ensures '/' !in doi ==> LastField(path, '/') == DownloadName(doi, link)
    ensures |path| == |workspace| + 1 + |DownloadName(doi, link)|
  {
    var name := DownloadName(doi, link);
    if '/' !in doi then
      LastFieldAfterSeparator(workspace, '/', name);
      assert workspace + "/" + name == workspace + ['/'] + name;
      workspace + "/" + name
    else
      workspace + "/" + name
  }

  /** The image extensions that the thumbnail file name drops, with their dot. */
  predicate HasRenamedExtension(s: string)
  {
    EndsWith(s, ".png") || EndsWith(s, ".tiff") || EndsWith(s, ".bmp")
  }

  /** `s` without the extension that `HasRenamedExtension` found. */
  function Stem(s: string): (stem: string)
    requires HasRenamedExtension(s)
    ensures |s| - 5 <= |stem| <= |s| - 4 && s[..|stem|] == stem
  {
    if EndsWith(s, ".tiff") then s[..|s| - 5] else s[..|s| - 4]
  }

  /** `re.sub(r'\.(png|tiff|bmp)$', '.jpg', file)` (line 323). Python's `$` matches at
      the end of the string and also just before a final newline. */
  function JpgName(s: string): (r: string)
    ensures !HasRenamedExtension(r)
    ensures |s| - 1 <= |r| <= |s|
    ensures !HasRenamedExtension(s) && !(EndsWith(s, "\n") && HasRenamedExtension(s[..|s| - 1]))
      ==> r == s
  {
    if HasRenamedExtension(s) then
      var r := Stem(s) + ".jpg";
      assert r[|r| - 4..] == ".jpg";
      KeptJpg(r);
      r
    else if EndsWith(s, "\n") && HasRenamedExtension(s[..|s| - 1]) then
      var r := Stem(s[..|s| - 1]) + ".jpg";
      NewlineEnd(r);
      r + "\n"
    else s
  }

  /** The three extensions are recognised, and `Stem` removes exactly them. */
  lemma StemOf(stem: string, ext: string)
    requires ext == ".png" || ext == ".tiff" || ext == ".bmp"
    ensures HasRenamedExtension(stem + ext) && Stem(stem + ext) == stem
  {
    var t := stem + ext;
    assert t[|t| - |ext|..] == ext;
    if ext == ".tiff" {
      assert t[..|t| - 5] == stem;
    } else {
      DiffersAt(t, ".tiff", 4);
      assert t[..|t| - 4] == stem;
    }
  }

  /** The other extensions, and a final newline, are not mistaken for them. */
  lemma NoRenamedExtension(stem: string, ext: string)
    requires ext == ".gif" || ext == ".jpeg" || ext == ".jpg" || ext == ".PNG"
    ensures !HasRenamedExtension(stem + ext) && !EndsWith(stem + ext, "\n")
  {
    var t := stem + ext;
    assert t[|t| - |ext|..] == ext;
    if ext == ".gif" {
      KeptGif(t);
    } else if ext == ".jpeg" {
      KeptJpeg(t);
    } else if ext == ".jpg" {
      KeptJpg(t);
    } else {
      KeptUpperPng(t);
    }
  }

  // One lemma per kept extension: a character where it differs from each renamed
  // extension and from a final newline.

  lemma KeptGif(t: string)
    requires EndsWith(t, ".gif")
    ensures !HasRenamedExtension(t) && !EndsWith(t, "\n")
  {
    assert t[|t| - 1] == 'f' && t[|t| - 2] == 'i';
    DiffersAt(t, "\n", 0);
    DiffersAt(t, ".png", 3);
    DiffersAt(t, ".tiff", 3);
    DiffersAt(t, ".bmp", 3);
  }

  lemma KeptJpeg(t: string)
    requires EndsWith(t, ".jpeg")
    ensures !HasRenamedExtension(t) && !EndsWith(t, "\n")
  {
    assert t[|t| - 1] == 'g' && t[|t| - 2] == 'e';
    DiffersAt(t, "\n", 0);
    DiffersAt(t, ".png", 2);
    DiffersAt(t, ".tiff", 4);
    DiffersAt(t, ".bmp", 3);
  }

  lemma KeptJpg(t: string)
    requires EndsWith(t, ".jpg")
    ensures !HasRenamedExtension(t) && !EndsWith(t, "\n")
  {
    assert t[|t| - 1] == 'g' && t[|t| - 3] == 'j';
    DiffersAt(t, "\n", 0);
    DiffersAt(t, ".png", 1);
    DiffersAt(t, ".tiff", 4);
    DiffersAt(t, ".bmp", 3);
  }

  lemma KeptUpperPng(t: string)
    requires EndsWith(t, ".PNG")
    ensures !HasRenamedExtension(t) && !EndsWith(t, "\n")
  {
    assert t[|t| - 1] == 'G';
    DiffersAt(t, "\n", 0);
    DiffersAt(t, ".png", 3);
    DiffersAt(t, ".tiff", 4);
    DiffersAt(t, ".bmp", 3);
  }

  /** Python's `$` also matches just before a final newline, which is kept. */
  lemma RenameBeforeNewline(t: string)
    requires HasRenamedExtension(t)
    ensures JpgName(t + "\n") == (Stem(t) + ".jpg") + "\n"
  {
    NewlineEnd(t);
  }

  /** A name ending in a newline has no extension right at its end. */
  lemma NewlineEnd(t: string)
    ensures !HasRenamedExtension(t + "\n") && EndsWith(t + "\n", "\n")
    ensures (t + "\n")[..|t|] == t
  {
    var s := t + "\n";
    DiffersAt(s, ".png", 3);
    DiffersAt(s, ".tiff", 4);
    DiffersAt(s, ".bmp", 3);
  }

  /** A name ending in `.png`, `.tiff` or `.bmp`, optionally followed by one newline,
      keeps everything before that extension (any earlier occurrence of those
      extensions included) and gets `.jpg` in its place. */
  lemma JpgNameReplaces(stem: string, ext: string, newline: bool)
    requires ext == ".png" || ext == ".tiff" || ext == ".bmp"
    ensures var nl := if newline then "\n" else "";
      JpgName(stem + ext + nl) == stem + ".jpg" + nl
  {
    if newline {
      ReplaceBeforeNewline(stem, ext);
    } else {
      StemOf(stem, ext);
      assert stem + ext + "" == stem + ext;
    }
  }

  /** The case of `JpgNameReplaces` where Python's `$` matches before a final newline. */
  lemma ReplaceBeforeNewline(stem: string, ext: string)
    requires ext == ".png" || ext == ".tiff" || ext == ".bmp"
    ensures JpgName(stem + ext + "\n") == stem + ".jpg" + "\n"
  {
    StemOf(stem, ext);
    RenameBeforeNewline(stem + ext);
  }

  /** Any other name is left as it is: one ending `.gif`, `.jpeg`, `.jpg` or the
      upper-case `.PNG`, with or without a final newline. */
  lemma JpgNameKeepsOthers(stem: string, ext: string, newline: bool)
    requires ext == ".gif" || ext == ".jpeg" || ext == ".jpg" || ext == ".PNG"
    ensures var nl := if newline then "\n" else "";
      JpgName(stem + ext + nl) == stem + ext + nl
  {
    NoRenamedExtension(stem, ext);
    if newline {
      NewlineEnd(stem + ext);
    } else {
      assert stem + ext + "" == stem + ext;
    }
  }

  /** Renaming a second time changes nothing. */
  lemma JpgNameIdempotent(s: string)
    ensures JpgName(JpgName(s)) == JpgName(s)
  {
    if HasRenamedExtension(s) {
      JpgNameKeepsOthers(Stem(s), ".jpg", false);
      assert Stem(s) + ".jpg" + "" == JpgName(s);
    } else if EndsWith(s, "\n") && HasRenamedExtension(s[..|s| - 1]) {
      JpgNameKeepsOthers(Stem(s[..|s| - 1]), ".jpg", true);
      assert Stem(s[..|s| - 1]) + ".jpg" + "\n" == JpgName(s);
    }
  }

  /** The rename sees the same extension through a directory prefix and keeps that
      prefix. */
  lemma RenamedExtensionInDirectory(dir: string, name: string)
    requires '/' !in name
    ensures HasRenamedExtension(dir + "/" + name) <==> HasRenamedExtension(name)
    ensures HasRenamedExtension(name) ==> Stem(dir + "/" + name) == dir + "/" + Stem(name)
  {
    assert dir + "/" + name == dir + ['/'] + name;
    EndsWithAfterSeparator(dir, '/', name, ".png");
    EndsWithAfterSeparator(dir, '/', name, ".tiff");
    EndsWithAfterSeparator(dir, '/', name, ".bmp");
    if HasRenamedExtension(name) {
      StemInDirectory(dir, name, if EndsWith(name, ".tiff") then 5 else 4);
    }
  }

  /** Cutting `k` characters off the end of a path cuts them off its last component. */
  lemma StemInDirectory(dir: string, name: string, k: nat)
    requires k <= |name|
    ensures (dir + "/" + name)[..|dir + "/" + name| - k] == dir + "/" + name[..|name| - k]
  {
  }

  // The three cases of `JpgNameInDirectory`: extension at the end, extension before a
  // final newline, no extension.

  lemma RenameInDirectoryAtEnd(dir: string, name: string)
    requires '/' !in name && HasRenamedExtension(name)
    ensures JpgName(dir + "/" + name) == dir + "/" + JpgName(name)
  {
    var s := dir + "/" + name;
    RenamedExtensionInDirectory(dir, name);
    assert JpgName(s) == Stem(s) + ".jpg";
    assert JpgName(name) == Stem(name) + ".jpg";
    JpgNameInDirectoryAtEnd(dir, Stem(name));
  }

  lemma JpgNameInDirectoryAtEnd(dir: string, stem: string)
    ensures (dir + "/" + stem) + ".jpg" == dir + "/" + (stem + ".jpg")
  {
  }

  lemma RenameInDirectoryBeforeNewline(dir: string, name: string)
    requires '/' !in name && !HasRenamedExtension(name) && EndsWith(name, "\n")
    ensures JpgName(dir + "/" + name) == dir + "/" + JpgName(name)
  {
    var init := name[..|name| - 1];
    assert name == init + "\n";
    PrefixChars(name, init);
    if HasRenamedExtension(init) {
      RenameBeforeNewlineInDirectory(dir, init);
    } else {
      KeepBeforeNewlineInDirectory(dir, init);
    }
  }

  lemma RenameBeforeNewlineInDirectory(dir: string, init: string)
    requires '/' !in init && HasRenamedExtension(init)
    ensures JpgName(dir + "/" + (init + "\n")) == dir + "/" + JpgName(init + "\n")
  {
    var s := dir + "/" + init;
    assert dir + "/" + (init + "\n") == s + "\n";
    RenamedExtensionInDirectory(dir, init);
    RenameBeforeNewline(s);
    RenameBeforeNewline(init);
    NewlineNameInDirectory(dir, Stem(init));
  }

  lemma NewlineNameInDirectory(dir: string, stem: string)
    ensures ((dir + "/" + stem) + ".jpg") + "\n" == dir + "/" + ((stem + ".jpg") + "\n")
  {
  }

  lemma KeepBeforeNewlineInDirectory(dir: string, init: string)
    requires '/' !in init && !HasRenamedExtension(init)
    ensures JpgName(dir + "/" + (init + "\n")) == dir + "/" + JpgName(init + "\n")
  {
    var s := dir + "/" + init;
    assert dir + "/" + (init + "\n") == s + "\n";
    NewlineEnd(s);
    NewlineEnd(init);
    RenamedExtensionInDirectory(dir, init);
    assert JpgName(s + "\n") == s + "\n";
    assert JpgName(init + "\n") == init + "\n";
  }

  lemma RenameInDirectoryUnchanged(dir: string, name: string)
    requires '/' !in name && !HasRenamedExtension(name) && !EndsWith(name, "\n")
    ensures JpgName(dir + "/" + name) == dir + "/" + JpgName(name)
  {
    RenamedExtensionInDirectory(dir, name);
    EndsWithAfterSeparator(dir, '/', name, "\n");
    assert dir + "/" + name == dir + ['/'] + name;
  }

  /** Renaming a file inside a directory renames only its last path component. */
  lemma JpgNameInDirectory(dir: string, name: string)
    requires '/' !in name
    ensures JpgName(dir + "/" + name) == dir + "/" + JpgName(name)
  {
    if HasRenamedExtension(name) {
      RenameInDirectoryAtEnd(dir, name);
    } else if EndsWith(name, "\n") {
      RenameInDirectoryBeforeNewline(dir, name);
    } else {
      RenameInDirectoryUnchanged(dir, name);
    }
  }

  /** `os.path.basename`, which unipath's `Path.name` returns (line 247). */
  function Basename(path: string): (name: string)
    ensures '/' !in name && EndsWith(path, name)
    ensures SeparatedSuffix(path, name, '/')
  {
    LastFieldSeparated(path, '/');
    LastField(path, '/')
  }

  /** The key prefix of every thumbnail uploaded for a journal. */
  function KeyPrefix(shortname: string): string
  {
    "ja-jp/" + shortname + "/img/articles/"
  }

  /** `upload_file`'s object key (lines 246-251): under the journal's article image
      folder, named after the uploaded file. */
  function ObjectKey(shortname: string, file: string): (key: string)
    ensures StartsWith(key, KeyPrefix(shortname))
    ensures LastField(key, '/') == Basename(file)
    ensures |key| == |KeyPrefix(shortname)| + |Basename(file)|
  {
    var prefix := KeyPrefix(shortname);
    assert prefix == "ja-jp/" + shortname + "/img/articles" + ['/'];
    LastFieldAfterSeparator("ja-jp/" + shortname + "/img/articles", '/', Basename(file));
    prefix + Basename(file)
  }

  /** The rename adds no path separator. */
  lemma JpgNameNoSeparator(name: string)
    requires '/' !in name
    ensures '/' !in JpgName(name)
  {
    if HasRenamedExtension(name) {
      StemNoSeparator(name);
    } else if EndsWith(name, "\n") && HasRenamedExtension(name[..|name| - 1]) {
      var init := name[..|name| - 1];
      PrefixChars(name, init);
      StemNoSeparator(init);
      assert JpgName(name) == (Stem(init) + ".jpg") + "\n";
    }
  }

  /** Replacing the extension of a name without `/` gives a name without `/`. */
  lemma StemNoSeparator(name: string)
    requires '/' !in name && HasRenamedExtension(name)
    ensures '/' !in Stem(name) + ".jpg"
  {
    PrefixChars(name, Stem(name));
  }

  /** The key under which a downloaded image's thumbnail is uploaded is the journal's
      prefix followed by the download name with its extension renamed, whatever the
      workspace directory is. */
  lemma ThumbnailKey(workspace: string, doi: string, link: string, shortname: string)
    requires '/' !in doi
    ensures ObjectKey(shortname, JpgName(DownloadPath(workspace, doi, link)))
      == KeyPrefix(shortname) + JpgName(DownloadName(doi, link))
  {
    var name := DownloadName(doi, link);
    assert '/' !in name;
    JpgNameInDirectory(workspace, name);
    var renamed := JpgName(name);
    JpgNameNoSeparator(name);
    LastFieldAfterSeparator(workspace, '/', renamed);
    assert workspace + "/" + renamed == workspace + ['/'] + renamed;
  }
}
