# gs-init: names and placeholder rewriting

gs-init creates a new Go-Spring project from a skeleton repository. It is
given a Go module path such as `github.com/acme/my_app`:

* the **project name** is the last `/`-separated piece of the module path
  (`my_app`);
* the **package name** is that name in PascalCase (`MyApp`), as computed
  by `toPascal`;
* the cloned skeleton is walked by `replaceFiles`. Every file is read and
  rewritten in memory: `GS_PROJECT_MODULE` is replaced by the module path,
  then `GS_PROJECT_NAME` by the package name. The file is then removed and
  written back at its full path, with `GS_PROJECT_NAME` replaced there
  too.

This project models those three pieces in Dafny and proves properties of
them. Go strings are indexed by byte, so a string is a `seq<Byte>`, where a
`Byte` is a `char` below 256 (`bytes.dfy`).

* `strings.dfy` (module `Strings`) models Go's `strings.Split`,
  `strings.Join` and `strings.ReplaceAll`/`bytes.ReplaceAll` for a
  non-empty separator or token. These are generic over the element type.
  It proves:
  * the split/join round trip;
  * that the pieces are free of the separator;
  * `ReplaceAll` as join-of-split, with its length;
  * exactly when it leaves its input unchanged;
  * when it removes every occurrence of the token (the replacement cannot
    overlap the token);
  * that it distributes over a separator the token does not contain.
* `pascal.dfy` (module `PascalCase`) holds two definitions:
  * `Pascal`, a byte-by-byte specification: drop every `_` and upper-case
    the first byte of each run;
  * `ToPascal`, the loop of `toPascal` in main.go over the pieces of `Split(s, "_")`
    that appends into a builder. It is proved equal to `Pascal`.

  The properties of `toPascal` are proved on the specification, and every
  row of the unit-test table is a lemma.
* `scaffold.dfy` (module `Scaffold`) covers:
  * the project and package names;
  * the content and path rewrites;
  * the skeleton as a tree of `Dir`/`File` entries (the order of entries is
    the order `os.ReadDir` returns them in);
  * `replaceFiles` as the sequence of `Remove`/`Write` operations it
    performs.

  It proves that the walk removes each file and writes its rewritten
  content at its rewritten path. When no directory name holds
  `GS_PROJECT_NAME`, those paths are exactly the files of the rewritten
  tree. With the package name derived from the module path, every name in
  the rewritten tree is still a base name without `/`.

Behaviour worth knowing:

* Line 187 rewrites the full joined path, directory part included, not only
  the file name. The walk never renames directories. So for a file inside a
  directory whose name holds the placeholder, the write targets a directory
  that was never created. `ListingOfRewriteTree` therefore requires that no
  directory on the way holds the placeholder. `RewritePathPerComponent`
  shows that the path rewrite works component by component, because the
  placeholder holds no `/`.
* `ReplaceAll` makes a single left-to-right pass, so a replacement that does
  not contain the token can still leave a token behind, formed across the
  replacement's edges. `NameTokenCanReappear` exhibits this:
  `GS_P` + `GS_PROJECT_NAME` + `_NAME` with package name `ROJECT` becomes
  `GS_PROJECT_NAME`. The absence of the token is proved under the condition
  that the replacement cannot overlap the token (`Strings.NoOverlap`):
  * the token does not lie inside the replacement;
  * the replacement does not lie inside the token, so it is not empty;
  * no non-empty suffix of the replacement is a proper prefix of the token;
  * no non-empty prefix of the replacement is a proper suffix of the token.

  `ROJECT` fails the second condition. `MyApp`, the package name of
  `github.com/acme/my_app`, meets all four (`ExampleMyApp`).
* The two content substitutions depend on their order. Lines 178-179 first
  replace the module placeholder and then the name placeholder, so the name
  substitution can complete a module placeholder that the first pass never
  saw. `ModuleTokenCanReappear` exhibits this: for every module path,
  `GS_PROJECT_MODUL` + `GS_PROJECT_NAME` with package name `Email` becomes
  `GS_PROJECT_MODULEmail`. `RewriteContentRemovesModule` proves that no
  module placeholder is left when both the module path and the package name
  meet `Strings.NoOverlap` against it. `Email`, the package name of
  `github.com/acme/email`, meets that condition for neither placeholder,
  since its first byte `E` ends both of them (`ExampleEmail`).

## Model

| member | source | states |
|---|---|---|
| Bytes.ToUpper | main.go:148-150 | an ASCII lower-case letter becomes the matching upper-case letter; every other byte is unchanged; the result is never lower-case |
| Strings.ReplaceAll | main.go:178-179 | no contract of its own: `bytes.ReplaceAll`/`strings.ReplaceAll` with a non-empty token; described by ReplaceAllIsJoinOfSplit, ReplaceAllLength, ReplaceAllUnchanged, ReplaceAllRemovesToken and ReplaceAllAcross |
| Strings.Join | main.go:142 | no contract of its own: `strings.Join`, used to state what Split and ReplaceAll do; described by SplitJoin and ReplaceAllIsJoinOfSplit |
| Strings.Count | main.go:178-179 | no contract of its own: the number of occurrences ReplaceAll replaces; described by CountZero and ReplaceAllLength |
| Strings.Split | main.go:70 | splitting with a non-empty separator yields at least one piece (the empty string gives one empty piece) |
| Strings.SplitJoin | main.go:142 | joining the pieces of a split with the separator gives back the input |
| Strings.SplitFree | main.go:142 | no piece of a split contains the separator |
| Strings.LastPart | main.go:70-71 | the last piece of a split on one byte holds no such byte, is a suffix of the input, and is either the whole input or preceded by that byte |
| Strings.CountZero | main.go:178-179 | the token occurs zero times exactly when no occurrence of it exists anywhere |
| Strings.ReplaceAllIsJoinOfSplit | main.go:178-179 | replacing every token is splitting on the token and joining with the replacement |
| Strings.ReplaceAllLength | main.go:178-179 | the result's length is the input's length plus, for each occurrence, the length difference between replacement and token |
| Strings.ReplaceAllChangesSameLength | main.go:178-179 | a replacement of the token's length that differs from it changes any input holding the token |
| Strings.ReplaceAllUnchanged | main.go:178-179 | the result equals the input exactly when the input holds no token or the replacement is the token itself |
| Strings.DisjointNoOverlap | main.go:178-179 | a non-empty replacement sharing no element with the token cannot overlap it |
| Strings.FreeAround | main.go:178-179 | a replacement that cannot overlap the token, set between two token-free pieces, creates no token |
| Strings.JoinFree | main.go:178-179 | token-free pieces joined by a replacement that cannot overlap the token are free of the token |
| Strings.ReplaceAllRemovesToken | main.go:178-179 | a replacement that cannot overlap the token leaves no token in the result |
| Strings.FreeFactor | main.go:178-179 | every factor of a text free of a token is free of it |
| Strings.SplitKeepsFree | main.go:178-179 | splitting a text free of a token gives pieces each free of it |
| Strings.ReplaceAllKeepsFree | main.go:178-179 | a replacement that cannot overlap a second token keeps a text free of that token free of it |
| Strings.ReplaceAllKeepsAbsent | main.go:187 | an element in neither the input nor the replacement is not in the result |
| Strings.ReplaceAllAcross | main.go:187 | an element absent from the token splits the rewrite: rewriting a + [c] + b is rewriting a, then c, then rewriting b |
| Strings.ReplaceAllCopiesPrefix | main.go:178-179 | elements at which no token starts are copied to the output unchanged |
| Strings.ReplaceAllOneToken | main.go:178-179 | a single token with no token starting before it and a token-free tail after it is the only thing replaced |
| PascalCase.Pascal | main.go:140-157 | no contract of its own: the byte-by-byte specification that ToPascal is proved to compute; described by the PascalCase lemmas below |
| PascalCase.PascalFrom | main.go:143-154 | no contract of its own: Pascal from a given position, knowing whether a segment starts there; described by PascalFromLength, PascalFromAppend and PascalFromPlain |
| PascalCase.ToPascal | main.go:140-157 | the loop over the pieces of the split on `_` computes exactly the byte-by-byte specification `Pascal` |
| PascalCase.PascalJoinStep | main.go:143-155 | one turn of the loop: an empty piece adds nothing, and a non-empty piece adds its capitalised first byte and the rest of the piece verbatim |
| PascalCase.PascalNoUnderscore | main.go:142-155 | the output never contains `_` |
| PascalCase.PascalLength | main.go:142-155 | the output is as long as the input minus its number of `_` bytes |
| PascalCase.PascalSplitsAtUnderscore | main.go:142-146 | an `_` cuts the input into two halves converted independently |
| PascalCase.UnderscoresCollapse | main.go:143-146 | leading, trailing and doubled underscores do not change the output |
| PascalCase.PascalOfWord | main.go:147-154 | a segment without `_` keeps every byte except its first, which is upper-cased if it is `a`..`z` |
| PascalCase.PascalEmpty | main.go:143-146 | the output is empty exactly when the input consists of underscores only (or is empty) |
| PascalCase.PascalStartsUpper | main.go:147-150 | a non-empty output never starts with a lower-case letter |
| PascalCase.PascalIdempotent | main.go:140-157 | converting an output again leaves it unchanged |
| PascalCase.PascalKeepsAbsent | main.go:147-154 | a byte that is not an upper-case letter appears in the output only if it appears in the input |
| PascalCase.ExampleSingleWord | main_test.go:13-17 | `hello` becomes `Hello` |
| PascalCase.ExampleTwoWords | main_test.go:18-22 | `hello_world` becomes `HelloWorld` |
| PascalCase.ExampleManyWords | main_test.go:23-27 | `hello_world_test_case` becomes `HelloWorldTestCase` |
| PascalCase.ExampleLeadingUnderscore | main_test.go:28-32 | `_hello_world` becomes `HelloWorld` |
| PascalCase.ExampleTrailingUnderscore | main_test.go:33-37 | `hello_world_` becomes `HelloWorld` |
| PascalCase.ExampleDoubleUnderscore | main_test.go:38-42 | `hello__world` becomes `HelloWorld` |
| PascalCase.ExampleNoWords | main_test.go:43-52 | the empty string and `___` both become the empty string |
| PascalCase.ExampleAlreadyPascal | main_test.go:53-57 | `HelloWorld` is a fixed point |
| PascalCase.ExampleDigits | main_test.go:58-62 | `hello_2_world` becomes `Hello2World`; a digit is copied as is |
| PascalCase.ExampleMixedCase | main_test.go:63-67 | `Hello_world_Test` becomes `HelloWorldTest` |
| Scaffold.ProjectName | main.go:70-71 | the project name holds no `/`, is a suffix of the module path, is preceded by `/` unless it is the whole path, and is the whole path exactly when the path holds no `/` |
| Scaffold.ProjectNameUnique | main.go:70-71 | those properties determine the project name: any byte string with them is the project name |
| Scaffold.ProjectNameAfterLastSlash | main.go:70-71 | a module path of the form prefix + `/` + name, with no `/` in name, has project name name |
| Scaffold.PackageName | main.go:83 | the package name holds neither `_` nor `/`, and is as long as the project name minus its underscores |
| Scaffold.RewriteContent | main.go:178-179 | no contract of its own: the module placeholder, then the name placeholder; described by RewriteContentUnchanged, RewriteContentRemovesName, RewriteContentRemovesModule and ModuleTokenCanReappear |
| Scaffold.RewritePath | main.go:187 | no contract of its own: the name placeholder in the full path; described by RewritePathUnchanged, RewritePathPerComponent and RewritePathKeepsBaseName |
| Scaffold.RewriteContentUnchanged | main.go:178-179 | content holding neither placeholder is written back unchanged |
| Scaffold.RewriteContentRemovesName | main.go:178-179 | with a package name that cannot overlap `GS_PROJECT_NAME`, no name placeholder is left in the content |
| Scaffold.RewriteContentRemovesModule | main.go:178-179 | with a module path and a package name that both cannot overlap `GS_PROJECT_MODULE`, no module placeholder is left in the content |
| Scaffold.ModuleTokenCanReappear | main.go:178-179 | the order of the two substitutions matters: for every module path, `GS_PROJECT_MODUL` + the name placeholder with package name `Email` becomes the module placeholder followed by `mail` |
| Scaffold.ExampleEmail | main.go:70-83 | the module path `github.com/acme/email` gives the package name `Email`, which can overlap both placeholders |
| Scaffold.EmailPackageName | main.go:70-83 | the package name of `github.com/acme/email` is `Email` |
| Scaffold.ExampleMyApp | main.go:70-83 | the module path `github.com/acme/my_app` gives the package name `MyApp`, and every file rewritten with it is free of the name placeholder |
| Scaffold.MyAppPackageName | main.go:70-83 | the package name of `github.com/acme/my_app` is `MyApp` |
| Scaffold.MyAppPascal | main.go:140-157 | `my_app` in PascalCase is `MyApp` |
| Scaffold.MyAppNoOverlap | main.go:179 | `MyApp` cannot overlap `GS_PROJECT_NAME`, although both hold `M` and `A` |
| Scaffold.RewritePathUnchanged | main.go:187 | a path changes exactly when it holds `GS_PROJECT_NAME` and the package name differs from the placeholder |
| Scaffold.RewritePathPerComponent | main.go:171-187 | rewriting dir + `/` + name rewrites dir and name separately, so the `/` structure of the path is kept |
| Scaffold.RewritePathKeepsBaseName | main.go:83-87 | with the package name of any module path, a name without `/` keeps no `/` after the rewrite |
| Scaffold.NameTokenCanReappear | main.go:178-187 | a package name free of the name placeholder can still leave one in the rewritten path, through the same `ReplaceAll` that line 179 applies to the content: `GS_P` + placeholder + `_NAME` with `ROJECT` becomes the placeholder |
| Scaffold.Listing | main.go:165-171 | no contract of its own: every file under a directory with its full path, in walk order; described by ReplaceFilesSteps and ListingOfRewriteTree |
| Scaffold.ListingOf | main.go:166-171 | no contract of its own: the same for one entry; described by ReplaceEntrySteps and ListingOfRewriteEntry |
| Scaffold.ReplaceFiles | main.go:160-192 | no contract of its own: the Remove/Write operations of the walk, in order; described by ReplaceFilesSteps and ReplaceFilesWritesRewriteTree |
| Scaffold.ReplaceEntry | main.go:166-190 | no contract of its own: the same for one entry; described by ReplaceEntrySteps |
| Scaffold.RewriteTree | main.go:160-192 | no contract of its own: the skeleton with files renamed and rewritten and directories kept; described by ListingOfRewriteTree, RewriteTreeUnchanged and RewriteTreeBaseNames |
| Scaffold.RewriteEntry | main.go:166-190 | no contract of its own: the same for one entry; described by ListingOfRewriteEntry, RewriteEntryUnchanged and RewriteEntryBaseNamed |
| Scaffold.ReplaceFilesSteps | main.go:160-192 | the walk removes each file of the tree in listing order, and right after each removal writes that file's rewritten content at its rewritten full path |
| Scaffold.ReplaceEntrySteps | main.go:167-191 | the same for one entry: a directory is walked recursively, a file is removed and then written |
| Scaffold.ListingOfRewriteTree | main.go:167-187 | when no directory name holds the placeholder, rewriting each file's full path yields the paths of the rewritten tree, in the same order and with the rewritten contents |
| Scaffold.ListingOfRewriteEntry | main.go:167-187 | the same for one entry |
| Scaffold.ReplaceFilesWritesRewriteTree | main.go:160-192 | under that condition the walk removes every file of the skeleton and writes the matching file of the rewritten tree |
| Scaffold.RewriteTreeUnchanged | main.go:160-192 | a skeleton with no placeholder in any file name or content comes out of the rewrite unchanged |
| Scaffold.RewriteEntryUnchanged | main.go:167-191 | the same for one entry |
| Scaffold.RewriteTreeBaseNames | main.go:83-87 | rewriting a tree of base names with the package name of any module path gives a tree of base names |
| Scaffold.RewriteEntryBaseNamed | main.go:166-190 | the same for one entry |

## Left out

- The command line (cobra flags, `--version`, the required-module check) and logger set-up: framework glue with no string logic (main.go:36-66, 98-100).
- Filesystem I/O is replaced by an abstract tree and an operation trace. Left out: the existence check on the project directory, the temporary directory, the final rename and the real read, remove and write calls. This also covers what happens when a rewritten path collides with another entry, or when the directory the write targets does not exist.
- `gitClone`, `runGen` and `runCommand` run external processes with pipes, a goroutine and a sleep.
- `log.Fatal` exits on I/O errors. The model has no failing I/O, so there is no error path to model.
- `filepath.Join` also cleans paths (it drops doubled or trailing `/` and resolves `.` and `..`). The model joins with a single `/`, which is what `Join` does for a plain directory path and a base name from `ReadDir`.
- Go's `ReplaceAll` and `Split` with an empty token or separator insert or split between every UTF-8 sequence. The Go code only uses non-empty constants, so the model requires a non-empty token.
- Strings.ReplaceAllRemovesToken: states that the token is absent only when the replacement cannot overlap it. That condition is sufficient, not necessary. The plainer premise "the replacement does not contain the token" does not suffice; see Scaffold.NameTokenCanReappear.
- Scaffold.RewriteContentRemovesName: the same condition, for the package name and `GS_PROJECT_NAME`.
- Scaffold.RewriteContentRemovesModule: the same condition, for both the module path and the package name against `GS_PROJECT_MODULE`; sufficient, not necessary.
- Scaffold.ListingOfRewriteTree: requires that no directory name on the way holds `GS_PROJECT_NAME`, because the walk rewrites whole paths but renames no directory.
