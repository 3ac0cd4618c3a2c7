/**
  * The string work of gs-init's one-shot scaffolding (main.go): deriving the
  * project and package names from the module path, and the placeholder
  * rewrite that replaceFiles performs over the cloned template.
  *
  * The template is an abstract tree of directories and files. Its entries
  * stand for what os.ReadDir returns, in that order; `dir` arguments are the
  * path of the directory being walked.
  */
module Scaffold {
  import opened Bytes
  import Strings
  import PascalCase

  const Slash: Byte := '/'

  /** Placeholder for the Go module path. */
  const ModuleToken: Bytes := "GS_PROJECT_MODULE"

  /** Placeholder for the PascalCase package name. */
  const NameToken: Bytes := "GS_PROJECT_NAME"

  // ---------------------------------------------------------------------
  // Names

  /**
    * The project name: the last '/'-separated piece of the module path, that
    * is, the longest suffix of the module without '/'.
    */
  function ProjectName(modulePath: Bytes): (name: Bytes)
    ensures Slash !in name
    ensures |name| <= |modulePath| && modulePath[|modulePath| - |name|..] == name
    ensures |name| < |modulePath| ==> modulePath[|modulePath| - |name| - 1] == Slash
    ensures name == modulePath <==> Slash !in modulePath
  {
    var ss := Strings.Split(modulePath, [Slash]);
    Strings.LastPart(modulePath, Slash);
    ss[|ss| - 1]
  }

  /** The three properties of ProjectName single it out. */
  lemma ProjectNameUnique(modulePath: Bytes, name: Bytes)
    requires Slash !in name
    requires |name| <= |modulePath| && modulePath[|modulePath| - |name|..] == name
    requires |name| < |modulePath| ==> modulePath[|modulePath| - |name| - 1] == Slash
    ensures name == ProjectName(modulePath)
  {
    var p := ProjectName(modulePath);
    ShorterSuffix(modulePath, name, p);
    ShorterSuffix(modulePath, p, name);
  }

  /** A module path made of any prefix, a '/', and a piece without '/' names its project after that piece. */
  lemma ProjectNameAfterLastSlash(prefix: Bytes, name: Bytes)
    requires Slash !in name
    ensures ProjectName(prefix + [Slash] + name) == name
  {
    var m := prefix + [Slash] + name;
    assert m[|m| - |name|..] == name;
    assert m[|m| - |name| - 1] == Slash;
    ProjectNameUnique(m, name);
  }

  /** Of two suffixes, the byte just before the shorter one lies inside the longer one. */
  lemma ShorterSuffix(m: Bytes, a: Bytes, b: Bytes)
    requires |a| <= |m| && m[|m| - |a|..] == a
    requires |b| <= |m| && m[|m| - |b|..] == b
    ensures |a| < |b| ==> m[|m| - |a| - 1] in b
    ensures |a| == |b| ==> a == b
  {
    if |a| < |b| {
      assert m[|m| - |a| - 1] == b[|b| - |a| - 1];
    }
  }

  /** The package name: the PascalCase form of the project name. */
  function PackageName(modulePath: Bytes): (pkg: Bytes)
    ensures PascalCase.Underscore !in pkg && Slash !in pkg
    ensures |pkg| == |ProjectName(modulePath)| - PascalCase.Underscores(ProjectName(modulePath))
  {
    var name := ProjectName(modulePath);
    PascalCase.PascalNoUnderscore(name);
    PascalCase.PascalKeepsAbsent(name, Slash);
    PascalCase.PascalLength(name);
    PascalCase.Pascal(name)
  }

  // ---------------------------------------------------------------------
  // Placeholder substitution

  /** A file's new content: the module token first, then the name token. */
  function RewriteContent(content: Bytes, modulePath: Bytes, pkgName: Bytes): Bytes
  {
    Strings.ReplaceAll(Strings.ReplaceAll(content, ModuleToken, modulePath), NameToken, pkgName)
  }

  /** A file's new path: the name token anywhere in the full path. */
  function RewritePath(path: Bytes, pkgName: Bytes): Bytes
  {
    Strings.ReplaceAll(path, NameToken, pkgName)
  }

  /** Content holding neither placeholder is written back unchanged. */
  lemma RewriteContentUnchanged(content: Bytes, modulePath: Bytes, pkgName: Bytes)
    requires Strings.Free(content, ModuleToken) && Strings.Free(content, NameToken)
    ensures RewriteContent(content, modulePath, pkgName) == content
  {
    Strings.ReplaceAllUnchanged(content, ModuleToken, modulePath);
    Strings.ReplaceAllUnchanged(content, NameToken, pkgName);
  }

  /** No name placeholder survives when the package name cannot overlap the placeholder. */
  lemma RewriteContentRemovesName(content: Bytes, modulePath: Bytes, pkgName: Bytes)
    requires Strings.NoOverlap(pkgName, NameToken)
    ensures Strings.Free(RewriteContent(content, modulePath, pkgName), NameToken)
  {
    Strings.ReplaceAllRemovesToken(Strings.ReplaceAll(content, ModuleToken, modulePath), NameToken, pkgName);
  }

  /** No module placeholder survives when neither the module path nor the package name can overlap it. */
  lemma RewriteContentRemovesModule(content: Bytes, modulePath: Bytes, pkgName: Bytes)
    requires Strings.NoOverlap(modulePath, ModuleToken) && Strings.NoOverlap(pkgName, ModuleToken)
    ensures Strings.Free(RewriteContent(content, modulePath, pkgName), ModuleToken)
  {
    var c := Strings.ReplaceAll(content, ModuleToken, modulePath);
    Strings.ReplaceAllRemovesToken(content, ModuleToken, modulePath);
    Strings.ReplaceAllKeepsFree(c, NameToken, pkgName, ModuleToken);
  }

  /**
    * The two substitutions depend on their order: for every module path, the
    * name substitution completes a module placeholder that the module
    * substitution never saw.
    */
  lemma ModuleTokenCanReappear(modulePath: Bytes)
    ensures RewriteContent("GS_PROJECT_MODUL" + NameToken, modulePath, "Email") == ModuleToken + "mail"
  {
    var head: Bytes := "GS_PROJECT_MODUL";
    var c, t := head + NameToken, ModuleToken;
    forall i | 0 <= i && i + |t| <= |c|
      ensures !Strings.OccursAt(c, t, i)
    {
      if i == 0 {
        assert c[i..i + |t|][16] != t[16];
      } else {
        assert c[i..i + |t|][0] == c[i] != t[0];
      }
    }
    Strings.ReplaceAllUnchanged(c, t, modulePath);
    var empty: Bytes := [];
    forall i | 0 <= i < |head|
      ensures !(NameToken <= (head + (NameToken + empty))[i..])
    {
      var s := head + (NameToken + empty);
      if i == 0 {
        assert s[i..][11] != NameToken[11];
      } else {
        assert s[i..][0] != NameToken[0];
      }
    }
    var pkg: Bytes := "Email";
    Strings.ReplaceAllOneToken(head, NameToken, empty, pkg);
    assert head + NameToken + empty == c;
    assert Strings.ReplaceAll(c, NameToken, pkg) == head + pkg + empty;
    assert Strings.ReplaceAll(c, t, modulePath) == c;
    assert RewriteContent(c, modulePath, pkg) == head + pkg + empty;
    assert head + pkg + empty == ModuleToken + "mail";
    assert c == "GS_PROJECT_MODUL" + NameToken;
  }

  /**
    * `Email`, the package name of `github.com/acme/email`, can overlap both
    * placeholders: its first byte `E` ends each of them.
    */
  lemma ExampleEmail()
    ensures PackageName("github.com/acme" + "/" + "email") == "Email"
    ensures !Strings.NoOverlap<Byte>("Email", ModuleToken) && !Strings.NoOverlap<Byte>("Email", NameToken)
  {
    EmailPackageName();
    var r: Bytes := "Email";
    assert r[..1] == ModuleToken[|ModuleToken| - 1..];
    assert r[..1] == NameToken[|NameToken| - 1..];
  }

  /** The package name of `github.com/acme/email` is `Email`. */
  lemma EmailPackageName()
    ensures PackageName("github.com/acme" + "/" + "email") == "Email"
  {
    var host: Bytes, project: Bytes := "github.com/acme", "email";
    var m := host + [Slash] + project;
    assert "github.com/acme" + "/" + "email" == m;
    ProjectNameAfterLastSlash(host, project);
    PascalCase.Capitalised(project, "Email");
    assert PackageName(m) == PascalCase.Pascal(project);
  }

  /**
    * The module path `github.com/acme/my_app` gives the package name `MyApp`,
    * which cannot overlap the name placeholder even though it shares the
    * bytes `M` and `A` with it, so every rewritten file is free of that
    * placeholder.
    */
  lemma ExampleMyApp()
    ensures PackageName("github.com/acme" + "/" + "my_app") == "MyApp"
    ensures forall content: Bytes ::
      Strings.Free(RewriteContent(content, "github.com/acme" + "/" + "my_app", "MyApp"), NameToken)
  {
    MyAppPackageName();
    var m: Bytes, r: Bytes := "github.com/acme" + "/" + "my_app", "MyApp";
    MyAppNoOverlap();
    forall content: Bytes
      ensures Strings.Free(RewriteContent(content, m, r), NameToken)
    {
      RewriteContentRemovesName(content, m, r);
    }
  }

  /** The package name of `github.com/acme/my_app` is `MyApp`. */
  lemma MyAppPackageName()
    ensures PackageName("github.com/acme" + "/" + "my_app") == "MyApp"
  {
    var host: Bytes, project: Bytes := "github.com/acme", "my_app";
    var m := host + [Slash] + project;
    assert "github.com/acme" + "/" + "my_app" == m;
    ProjectNameAfterLastSlash(host, project);
    MyAppPascal();
    var my: Bytes, app: Bytes := "my", "app";
    assert project == my + "_" + app;
    assert PackageName(m) == PascalCase.Pascal(project);
  }

  /** `my_app` in PascalCase is `MyApp`. */
  lemma MyAppPascal()
    ensures PascalCase.Pascal("my" + "_" + "app") == "MyApp"
  {
    var my: Bytes, app: Bytes := "my", "app";
    PascalCase.Capitalised(my, "My");
    PascalCase.Capitalised(app, "App");
    PascalCase.PascalSplitsAtUnderscore(my, app);
  }

  /**
    * `MyApp` lies nowhere inside the name placeholder, no suffix of it starts
    * the placeholder (which starts with `G`) and no prefix of it ends the
    * placeholder (which ends with `E`).
    */
  lemma MyAppNoOverlap()
    ensures Strings.NoOverlap<Byte>("MyApp", NameToken)
  {
    var t, r: Bytes := NameToken, "MyApp";
    forall i | 0 <= i && i + |r| <= |t|
      ensures !Strings.OccursAt(t, r, i)
    {
      assert t[i..i + |r|][0] == t[i] != 'M';
    }
    forall k | 0 < k < |t| && k <= |r|
      ensures r[|r| - k..] != t[..k]
    {
      assert r[|r| - k..][0] == r[|r| - k] != 'G';
    }
    forall k | 0 < k < |t| && k <= |r|
      ensures r[..k] != t[|t| - k..]
    {
      assert r[..k][k - 1] == r[k - 1] != 'E';
    }
  }

  /** A path changes exactly when it holds the name placeholder and the package name differs from it. */
  lemma RewritePathUnchanged(path: Bytes, pkgName: Bytes)
    ensures RewritePath(path, pkgName) == path <==> Strings.Free(path, NameToken) || pkgName == NameToken
  {
    Strings.ReplaceAllUnchanged(path, NameToken, pkgName);
  }

  lemma SlashNotInNameToken()
    ensures Slash !in NameToken
  {
  }

  /**
    * With the package name derived from any module path, rewriting a name
    * without '/' yields a name without '/': a base name stays a base name.
    */
  lemma RewritePathKeepsBaseName(name: Bytes, modulePath: Bytes)
    requires Slash !in name
    ensures Slash !in RewritePath(name, PackageName(modulePath))
  {
    Strings.ReplaceAllKeepsAbsent(name, NameToken, PackageName(modulePath), Slash);
  }

  /** The placeholder holds no '/', so rewriting a path rewrites each component on its own. */
  lemma RewritePathPerComponent(dir: Bytes, name: Bytes, pkgName: Bytes)
    ensures RewritePath(dir + [Slash] + name, pkgName)
         == RewritePath(dir, pkgName) + [Slash] + RewritePath(name, pkgName)
  {
    SlashNotInNameToken();
    Strings.ReplaceAllAcross(dir, Slash, name, NameToken, pkgName);
  }

  /**
    * ReplaceAll makes a single left-to-right pass: a placeholder can be formed
    * across the edge of a replacement even though the replacement does not
    * contain it.
    */
  lemma NameTokenCanReappear()
    ensures Strings.Free<Byte>("ROJECT", NameToken)
    ensures RewritePath("GS_P" + NameToken + "_NAME", "ROJECT") == NameToken
  {
    var t := NameToken;
    var head: Bytes, tail: Bytes, r: Bytes := "GS_P", "_NAME", "ROJECT";
    forall i | 0 <= i < |head|
      ensures !(t <= (head + (t + tail))[i..])
    {
      var s := head + (t + tail);
      if i == 0 {
        assert s[i..][4] != t[4];
      } else {
        assert s[i..][0] != t[0];
      }
    }
    assert Strings.Free(tail, t);
    Strings.ReplaceAllOneToken(head, t, tail, r);
    assert head + r + tail == t;
    assert "GS_P" + NameToken + "_NAME" == head + t + tail;
  }

  // ---------------------------------------------------------------------
  // The template tree

  datatype Entry = File(name: Bytes, content: Bytes) | Dir(name: Bytes, entries: seq<Entry>)

  /** A file of the tree with its full path. */
  datatype FileAt = FileAt(path: Bytes, content: Bytes)

  /** The file-system operations replaceFiles performs. */
  datatype Op = Remove(path: Bytes) | Write(path: Bytes, content: Bytes)

  /** Every file under `dir`, with its full path, in the order of the walk. */
  function Listing(dir: Bytes, es: seq<Entry>): seq<FileAt>
    decreases es
  {
    if es == [] then [] else ListingOf(dir, es[0]) + Listing(dir, es[1..])
  }

  function ListingOf(dir: Bytes, e: Entry): seq<FileAt>
    decreases e
  {
    match e
    case File(n, c) => [FileAt(dir + [Slash] + n, c)]
    case Dir(n, children) => Listing(dir + [Slash] + n, children)
  }

  /**
    * replaceFiles(dir, modulePath, pkgName): for each entry, recurse into a
    * directory; for a file, remove it and write its rewritten content at its
    * rewritten full path.
    */
  function ReplaceFiles(dir: Bytes, es: seq<Entry>, modulePath: Bytes, pkgName: Bytes): seq<Op>
    decreases es
  {
    if es == [] then []
    else ReplaceEntry(dir, es[0], modulePath, pkgName) + ReplaceFiles(dir, es[1..], modulePath, pkgName)
  }

  function ReplaceEntry(dir: Bytes, e: Entry, modulePath: Bytes, pkgName: Bytes): seq<Op>
    decreases e
  {
    match e
    case Dir(n, children) => ReplaceFiles(dir + [Slash] + n, children, modulePath, pkgName)
    case File(n, c) =>
      var fileName := dir + [Slash] + n;
      [Remove(fileName), Write(RewritePath(fileName, pkgName), RewriteContent(c, modulePath, pkgName))]
  }

  /** The rewritten template as a tree: files renamed and rewritten, directories kept. */
  function RewriteTree(es: seq<Entry>, modulePath: Bytes, pkgName: Bytes): seq<Entry>
    decreases es
  {
    if es == [] then [] else [RewriteEntry(es[0], modulePath, pkgName)] + RewriteTree(es[1..], modulePath, pkgName)
  }

  function RewriteEntry(e: Entry, modulePath: Bytes, pkgName: Bytes): Entry
    decreases e
  {
    match e
    case File(n, c) => File(RewritePath(n, pkgName), RewriteContent(c, modulePath, pkgName))
    case Dir(n, children) => Dir(n, RewriteTree(children, modulePath, pkgName))
  }

  /** Each file rewritten in place of the listing. */
  function Rewritten(fs: seq<FileAt>, modulePath: Bytes, pkgName: Bytes): (r: seq<FileAt>)
    ensures |r| == |fs|
  {
    if fs == [] then []
    else [FileAt(RewritePath(fs[0].path, pkgName), RewriteContent(fs[0].content, modulePath, pkgName))]
         + Rewritten(fs[1..], modulePath, pkgName)
  }

  /** For each pair of files: remove the first, write the second. */
  function Steps(before: seq<FileAt>, after: seq<FileAt>): seq<Op>
    requires |before| == |after|
  {
    if before == [] then []
    else [Remove(before[0].path), Write(after[0].path, after[0].content)] + Steps(before[1..], after[1..])
  }

  lemma {:induction false} RewrittenAppend(a: seq<FileAt>, b: seq<FileAt>, modulePath: Bytes, pkgName: Bytes)
    ensures Rewritten(a + b, modulePath, pkgName) == Rewritten(a, modulePath, pkgName) + Rewritten(b, modulePath, pkgName)
    decreases |a|
  {
    if a != [] {
      assert (a + b)[1..] == a[1..] + b;
      RewrittenAppend(a[1..], b, modulePath, pkgName);
    } else {
      assert a + b == b;
    }
  }

  lemma {:induction false} StepsAppend(a: seq<FileAt>, a': seq<FileAt>, b: seq<FileAt>, b': seq<FileAt>)
    requires |a| == |a'| && |b| == |b'|
    ensures Steps(a + b, a' + b') == Steps(a, a') + Steps(b, b')
    decreases |a|
  {
    if a != [] {
      assert (a + b)[1..] == a[1..] + b;
      assert (a' + b')[1..] == a'[1..] + b';
      StepsAppend(a[1..], a'[1..], b, b');
    } else {
      assert a + b == b && a' + b' == b';
    }
  }

  /**
    * The walk removes every file of the template, in listing order, and right
    * after each removal writes the file's rewritten content at its rewritten
    * full path.
    */
  lemma {:induction false} ReplaceFilesSteps(dir: Bytes, es: seq<Entry>, modulePath: Bytes, pkgName: Bytes)
    ensures ReplaceFiles(dir, es, modulePath, pkgName)
         == Steps(Listing(dir, es), Rewritten(Listing(dir, es), modulePath, pkgName))
    decreases es
  {
    if es != [] {
      var first, rest := ListingOf(dir, es[0]), Listing(dir, es[1..]);
      ReplaceEntrySteps(dir, es[0], modulePath, pkgName);
      ReplaceFilesSteps(dir, es[1..], modulePath, pkgName);
      RewrittenAppend(first, rest, modulePath, pkgName);
      StepsAppend(first, Rewritten(first, modulePath, pkgName), rest, Rewritten(rest, modulePath, pkgName));
    }
  }

  lemma {:induction false} ReplaceEntrySteps(dir: Bytes, e: Entry, modulePath: Bytes, pkgName: Bytes)
    ensures ReplaceEntry(dir, e, modulePath, pkgName)
         == Steps(ListingOf(dir, e), Rewritten(ListingOf(dir, e), modulePath, pkgName))
    decreases e
  {
    match e
    case File(n, c) =>
    case Dir(n, children) =>
      ReplaceFilesSteps(dir + [Slash] + n, children, modulePath, pkgName);
  }

  /** No directory on the way down, nor the root, has the name placeholder in its name. */
  ghost predicate DirsUntemplated(es: seq<Entry>)
    decreases es
  {
    forall k :: 0 <= k < |es| ==> DirUntemplated(es[k])
  }

  ghost predicate DirUntemplated(e: Entry)
    decreases e
  {
    match e
    case File(_, _) => true
    case Dir(n, children) => Strings.Free(n, NameToken) && DirsUntemplated(children)
  }

  lemma JoinPathFree(dir: Bytes, n: Bytes)
    requires Strings.Free(dir, NameToken) && Strings.Free(n, NameToken)
    ensures Strings.Free(dir + [Slash] + n, NameToken)
  {
    SlashNotInNameToken();
    Strings.DisjointNoOverlap([Slash], NameToken);
    assert Strings.Join([dir, n], [Slash]) == dir + [Slash] + n;
    Strings.JoinFree([dir, n], [Slash], NameToken);
  }

  /**
    * When no directory name holds the placeholder, rewriting each full path
    * gives exactly the paths of the rewritten tree.
    */
  lemma {:induction false} ListingOfRewriteTree(dir: Bytes, es: seq<Entry>, modulePath: Bytes, pkgName: Bytes)
    requires Strings.Free(dir, NameToken) && DirsUntemplated(es)
    ensures Listing(dir, RewriteTree(es, modulePath, pkgName)) == Rewritten(Listing(dir, es), modulePath, pkgName)
    decreases es
  {
    if es != [] {
      var r := RewriteTree(es, modulePath, pkgName);
      assert r[0] == RewriteEntry(es[0], modulePath, pkgName) && r[1..] == RewriteTree(es[1..], modulePath, pkgName);
      ListingOfRewriteEntry(dir, es[0], modulePath, pkgName);
      ListingOfRewriteTree(dir, es[1..], modulePath, pkgName);
      RewrittenAppend(ListingOf(dir, es[0]), Listing(dir, es[1..]), modulePath, pkgName);
    }
  }

  lemma {:induction false} ListingOfRewriteEntry(dir: Bytes, e: Entry, modulePath: Bytes, pkgName: Bytes)
    requires Strings.Free(dir, NameToken) && DirUntemplated(e)
    ensures ListingOf(dir, RewriteEntry(e, modulePath, pkgName)) == Rewritten(ListingOf(dir, e), modulePath, pkgName)
    decreases e
  {
    match e
    case File(n, c) =>
      RewritePathPerComponent(dir, n, pkgName);
      RewritePathUnchanged(dir, pkgName);
    case Dir(n, children) =>
      JoinPathFree(dir, n);
      ListingOfRewriteTree(dir + [Slash] + n, children, modulePath, pkgName);
  }

  /**
    * When no directory name holds the placeholder, the walk removes each
    * template file and writes the matching file of the rewritten tree.
    */
  lemma ReplaceFilesWritesRewriteTree(dir: Bytes, es: seq<Entry>, modulePath: Bytes, pkgName: Bytes)
    requires Strings.Free(dir, NameToken) && DirsUntemplated(es)
    ensures |Listing(dir, es)| == |Listing(dir, RewriteTree(es, modulePath, pkgName))|
    ensures ReplaceFiles(dir, es, modulePath, pkgName)
         == Steps(Listing(dir, es), Listing(dir, RewriteTree(es, modulePath, pkgName)))
  {
    ReplaceFilesSteps(dir, es, modulePath, pkgName);
    ListingOfRewriteTree(dir, es, modulePath, pkgName);
  }

  /** Every entry of the tree is named by a base name, without '/'. */
  predicate BaseNames(es: seq<Entry>)
    decreases es
  {
    forall k :: 0 <= k < |es| ==> BaseNamed(es[k])
  }

  predicate BaseNamed(e: Entry)
    decreases e
  {
    Slash !in e.name && (e.Dir? ==> BaseNames(e.entries))
  }

  /** Rewriting with the package name of any module path keeps every name a base name. */
  lemma {:induction false} RewriteTreeBaseNames(es: seq<Entry>, modulePath: Bytes)
    requires BaseNames(es)
    ensures BaseNames(RewriteTree(es, modulePath, PackageName(modulePath)))
    decreases es
  {
    if es != [] {
      RewriteEntryBaseNamed(es[0], modulePath);
      RewriteTreeBaseNames(es[1..], modulePath);
    }
  }

  lemma {:induction false} RewriteEntryBaseNamed(e: Entry, modulePath: Bytes)
    requires BaseNamed(e)
    ensures BaseNamed(RewriteEntry(e, modulePath, PackageName(modulePath)))
    decreases e
  {
    match e
    case File(n, c) =>
      RewritePathKeepsBaseName(n, modulePath);
    case Dir(n, children) =>
      RewriteTreeBaseNames(children, modulePath);
  }

  /** No file name holds the name placeholder and no content holds either placeholder. */
  ghost predicate Untemplated(es: seq<Entry>)
    decreases es
  {
    forall k :: 0 <= k < |es| ==> EntryUntemplated(es[k])
  }

  ghost predicate EntryUntemplated(e: Entry)
    decreases e
  {
    match e
    case File(n, c) =>
      Strings.Free(n, NameToken) && Strings.Free(c, ModuleToken) && Strings.Free(c, NameToken)
    case Dir(_, children) => Untemplated(children)
  }

  /** A template without placeholders comes out of the rewrite unchanged. */
  lemma {:induction false} RewriteTreeUnchanged(es: seq<Entry>, modulePath: Bytes, pkgName: Bytes)
    requires Untemplated(es)
    ensures RewriteTree(es, modulePath, pkgName) == es
    decreases es
  {
    if es != [] {
      RewriteEntryUnchanged(es[0], modulePath, pkgName);
      RewriteTreeUnchanged(es[1..], modulePath, pkgName);
      assert es == [es[0]] + es[1..];
    }
  }

  lemma {:induction false} RewriteEntryUnchanged(e: Entry, modulePath: Bytes, pkgName: Bytes)
    requires EntryUntemplated(e)
    ensures RewriteEntry(e, modulePath, pkgName) == e
    decreases e
  {
    match e
    case File(n, c) =>
      RewritePathUnchanged(n, pkgName);
      RewriteContentUnchanged(c, modulePath, pkgName);
    case Dir(n, children) =>
      RewriteTreeUnchanged(children, modulePath, pkgName);
  }
}
