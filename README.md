# fpm's package descriptor, modelled in Dafny

This project models the core of fpm's `FPM::Package` (`lib/fpm/package.rb`):

- the descriptor's fields and the defaults `initialize` gives them;
- the format tag `type`, derived from the class name;
- the front part of `assemble`:
  - it refuses to run without a name;
  - it defaults the payload root to `"."`;
  - it rewrites the caller's output path in place, replacing every `VERSION` and then every `ARCH`;
  - it deletes an old output file;
  - it names the staging directory `<pwd>/build-<type>-<basename>`, records it in the garbage list and creates it if it is not already a directory;
- the order of the pipeline that follows: `tar`, `gzip`, `md5sums`, spec file, backend `build`.

The files are:

- `text.dfy` (module `Text`): Ruby string operations used by the core. These are `gsub` with a plain-word pattern and a literal replacement, splitting on a separator, ASCII `downcase` and `Integer#to_s`, with the lemmas the core needs about them.
- `paths.dfy` (module `Paths`): Ruby's `File.basename` for Unix paths, with its lemmas.
- `package.dfy` (module `FpmPackage`) holds the descriptor itself:
  - the class `Package` with its fields, its garbage list, and the methods `Stage` and `Assemble`;
  - the option hash `Params`, whose `output` string `assemble` rewrites in place;
  - an abstract `FileSystem` of existing regular files and directories;
  - the format tag, output resolution, staging-directory naming and the trace of pipeline steps, as functions and lemmas.

The pipeline steps are kept abstract. `gzip` is an external program. `tar`, `specfile` and the backend's `build` are not defined in `lib/fpm/package.rb`. `generate_md5sums` and `generate_specfile` are defined there (lines 93-102), but their file writes and template rendering are left out (see below). All five appear as uninterpreted `Step` events, each carrying the working directory it runs in. Which steps fail is a parameter: the set `failing`. A failing step raises and ends `assemble`. The exception is `gzip`: it runs through `system`, and its false result is ignored.

## Behaviour of the code worth knowing

- The model follows Ruby 1.9 to 3.1, where `File.exists?` is defined. Ruby 3.2 removed `File.exists?`. There, line 71 raises NoMethodError on every call that gets past both `gsub!` calls: the caller's output has already been rewritten, and nothing is deleted, recorded as garbage or created, and no pipeline step runs. The model does not describe that behaviour.
- A name is required only in Ruby's sense: `!@name` fails for `nil` or `false`, and an empty string passes the check. The model's name is an `Option<string>`, which cannot hold `false`, so `None` stands for both.
- `params["root"] || '.'` falls back to `"."` for `nil` or `false`; an empty string is kept. The model's root is an `Option<string>`, so `None` stands for both.
- A `nil` architecture makes `output.gsub!(/ARCH/, nil)` raise even when the output has no `ARCH` token. By then the `VERSION` substitution has already rewritten the caller's string.
- A failing `gzip` does not abort the assembly.
- The staging directory path has no per-run component. Two runs with the same format and the same output basename share it. An existing directory is reused.
- Nothing removes the staging directory. It is only recorded in `garbage`.
- `File.delete` on a directory raises, and so does `Dir.mkdir` where a regular file exists. The model returns these as errors.

## Model

| member | source | states |
|---|---|---|
| `FpmPackage.Package.constructor` | lib/fpm/package.rb:41-52 | iteration 1, the placeholder URL, category "default", license "unknown", maintainer `<user@host>` from the injected user and host, no architecture, summary "no summary given", an empty garbage list |
| `FpmPackage.Package.Assemble` | lib/fpm/package.rb:62-91 | No name: fails before the output is rewritten, a file is deleted, a directory is created or garbage is recorded. No output or no architecture: fails, with VERSION already substituted in the caller's string in the second case. Otherwise the caller's output becomes the resolved path, and the rest is as `Stage` and `RunPipeline` state. |
| `FpmPackage.Package.Stage` | lib/fpm/package.rb:71-76 | The resolved output no longer exists. Exactly one entry, `StagingDir(pwd, type, output)`, is appended to the garbage and earlier entries are kept. The staging directory exists afterwards: created if absent, reused if present. Errors: a directory at the output path, an undefined type, a file where the staging directory goes. |
| `FpmPackage.FileSystem.Delete` | lib/fpm/package.rb:71 | removes exactly the given regular file; fails on a directory or a missing path |
| `FpmPackage.FileSystem.Mkdir` | lib/fpm/package.rb:76 | adds the directory exactly when nothing exists at the path |
| `FpmPackage.RunPipeline` | lib/fpm/package.rb:78-90 | the steps that run and the outcome are those of `Run` over the planned order tar, gzip, md5sums, spec file, build |
| `FpmPackage.RunShape` | lib/fpm/package.rb:78-90 | the steps that ran are a prefix of the plan; only the last of them can have raised; success means the whole plan ran and no step raised |
| `FpmPackage.RunPlanned` | lib/fpm/package.rb:78-90 | closed form of the run: stops right after tar, md5sums, spec file or build when that step raises, and runs all five steps otherwise |
| `FpmPackage.OutcomeOfRun` | lib/fpm/package.rb:78-90 | the assembly succeeds exactly when no step of the plan raises; a failure names the last step that ran, that step is one that raises, and no step before it raised |
| `FpmPackage.PipelineOrder` | lib/fpm/package.rb:78-90 | tar runs first; `build` runs only after all four payload steps; the run succeeds exactly when none of tar, md5sums, spec file or build fails |
| `FpmPackage.RunIgnoresGzipFailures` | lib/fpm/package.rb:82 | whether gzip fails makes no difference to which steps run or to the outcome |
| `FpmPackage.StepsRunWhereExpected` | lib/fpm/package.rb:78-90 | every step that runs does so under the root, except `build`, which runs in the staging directory |
| `FpmPackage.DefaultRootIsCurrentDir` | lib/fpm/package.rb:65 | without a `root` option every payload step runs in "." |
| `FpmPackage.VersionTag` | lib/fpm/package.rb:69 | the text that replaces VERSION is the version (empty for nil), a dash, then the iteration in canonical decimal (no leading zero, no `-0`), which reads back as the iteration |
| `FpmPackage.SubstituteVersion` | lib/fpm/package.rb:69 | an output without VERSION is unchanged; an output with VERSION ends up holding the version tag |
| `FpmPackage.ResolveOutput` | lib/fpm/package.rb:69-70 | an output path with neither token is unchanged |
| `FpmPackage.ResolveOutputSingleTokens` | lib/fpm/package.rb:69-70 | an output with one VERSION followed by one ARCH, and no other occurrence of either token (counting any the version tag brings in), has both replaced in place by `<version>-<iteration>` and the architecture; the rest of the path is kept |
| `FpmPackage.ResolveOutputExample` | lib/fpm/package.rb:60-61 | "pkg-VERSION.ARCH.fmt" with version 1.2.3, iteration 4, arch x86_64 resolves to "pkg-1.2.3-4.x86_64.fmt" |
| `FpmPackage.ArchInVersionIsReplaced` | lib/fpm/package.rb:69-70 | the substitutions are sequential: an ARCH brought in by the version is replaced too |
| `FpmPackage.VersionTagDeterminesIteration` | lib/fpm/package.rb:69 | for a fixed version, the text VERSION becomes determines the iteration |
| `Text.ReplaceAll` | lib/fpm/package.rb:69-70 | global replacement equals cutting the string at every occurrence of the token and joining the pieces with the replacement, so every occurrence is replaced and the text between occurrences is kept |
| `Text.ReplaceAllWithoutMatch` | lib/fpm/package.rb:69-70 | a string with no occurrence of the token is left unchanged |
| `Text.ReplaceAllIntroduces` | lib/fpm/package.rb:69-70 | a string with an occurrence of the token holds the replacement afterwards |
| `Text.ReplaceAllOnce` | lib/fpm/package.rb:69-70 | for a token whose first character is not repeated in it, a single occurrence between two token-free parts is replaced in place |
| `Text.ReplaceTwice` | lib/fpm/package.rb:69-70 | two successive replacements of two such tokens, one occurrence each, replace both in place |
| `Text.ReplaceAllKeepsPrefix` | lib/fpm/package.rb:69-70 | a prefix in which no occurrence starts is copied through unchanged |
| `Text.IntToString` | lib/fpm/package.rb:69 | `Integer#to_s`: a leading minus exactly for a negative number, then digits with no leading zero unless the number is 0, and the text reads back as the number |
| `FpmPackage.StagingDir` | lib/fpm/package.rb:71-76 | the staging directory is never the output path, so creating it cannot bring back the deleted output; its own name is `build-<type>-<basename>` when the tag has no slash and the output is not made only of slashes |
| `FpmPackage.StagingDirDependsOnlyOnBasename` | lib/fpm/package.rb:73 | for a fixed pwd and type, two outputs share a staging directory exactly when their basenames agree |
| `Paths.Basename` | lib/fpm/package.rb:73 | `File.basename`: empty only for the empty path, and either "/" or slash-free |
| `Paths.BasenameOfChild` | lib/fpm/package.rb:73 | the basename of `dir/name` is `name` |
| `Paths.BasenameIdempotent` | lib/fpm/package.rb:73 | taking the basename twice changes nothing |
| `Paths.BasenameIgnoresTrailingSlash` | lib/fpm/package.rb:73 | a trailing slash does not change the basename of a non-empty path, so `out` and `out/` share a staging directory |
| `Paths.BasenameIsRoot` | lib/fpm/package.rb:73 | the basename is "/" exactly for a non-empty path made only of slashes |
| `FpmPackage.Type` | lib/fpm/package.rb:112-114 | no tag exactly when the class name is empty or only colons (Ruby raises there); otherwise a tag that is non-empty, colon-free and has no upper-case letter |
| `FpmPackage.RubySplit` | lib/fpm/package.rb:113 | `split(':')`: no field holds the separator, the last field is non-empty, and there are no fields exactly when the string is only separators |
| `FpmPackage.DropTrailingEmpty` | lib/fpm/package.rb:113 | keeps a prefix of the fields that ends in a non-empty field and drops only empty ones |
| `FpmPackage.TypeOfQualifiedName` | lib/fpm/package.rb:112-114 | the tag of `Prefix::Seg` is `Seg` lower-cased |
| `FpmPackage.TypeOfPlainName` | lib/fpm/package.rb:112-114 | the tag of an unqualified name is the name lower-cased |
| `FpmPackage.TypeOfDeb` | lib/fpm/package.rb:112-114 | `FPM::Package::Deb` gives "deb" |
| `Text.JoinSplitOn` | lib/fpm/package.rb:113 | splitting on a separator and joining again gives back the string |
| `Text.SplitOnPiecesAreFree` | lib/fpm/package.rb:113 | no piece of a split contains the separator |
| `Text.Downcase` | lib/fpm/package.rb:113 | the same length; each A-Z letter becomes its lower-case letter and every other character is kept; no upper-case letter remains |

## Left out

- Text.ReplaceAll: inserts the replacement literally. Ruby's `gsub` with a string replacement expands backslash sequences in it: `\0` and `\&` (the match), `` \` `` and `\'` (the text before and after it), `\1` to `\9` (groups, empty here) and `\\` (one backslash). The model agrees with Ruby whenever the version and the architecture hold no backslash. With version `1\&`, for instance, Ruby writes the matched `VERSION` back into the path.
- Text.Downcase: lower-cases ASCII letters only, as Ruby up to 2.3 does. Ruby 2.4 to 3.1 also fold non-ASCII letters. fpm's class names are ASCII, where the two agree.
- The external programs `tar` and `gzip -f`, and the backend's `build(params)`. Their implementations are not part of this model, so each is an uninterpreted step that either succeeds or raises.
- `generate_md5sums` and `generate_specfile` are steps that either succeed or raise. The md5sums step can raise where `paths.each` meets a nil `paths` (line 106) or where `File.open` fails (line 100). The `find | xargs md5sum` command at line 107 does not raise when it fails, and its output is discarded.
- `checksum`'s result. As written, it returns `paths`, the value of `paths.each`, and not the accumulated digest lines, so the md5sums file holds the paths. File contents are not modelled.
- The ERB templates, the `template` lookup, `binding` and the spec file's content. The template engine and its files are not part of this model.
- `Dir.chdir`: the working directory is not process state here. Each step carries the directory it runs in. A root that does not exist would raise at `chdir`, before `tar`; the model shows that as a failing `tar` step.
- `ENV["USER"]` and `Socket.gethostname` are the constructor's `user` and `host` parameters.
- The file system is two sets of paths: regular files and directories. File contents, permissions and symbolic links are not modelled.
- `params["paths"]` is a sequence. A missing `paths` option makes one of the payload steps raise: `paths.each` in the md5sums step raises at the latest, and what the `tar` helper does with nil is not part of this model. The set `failing` covers either case.
- `iteration` is an integer. Ruby's `attr_accessor` would accept any value, and interpolation would call that value's `to_s`.
- Strings are sequences of characters. Ruby's frozen strings and encodings are not modelled. `output.gsub!` raises on a frozen output string before looking for a match, and on a string whose bytes are invalid in its encoding. The model resolves every non-nil output.
- The class name is a plain string. An anonymous subclass has a nil `self.class.name`, and `type` then raises NoMethodError at line 113; the model does not represent that class. Its `TypeUndefined` error covers a name that is empty or only colons, where `split(':').last` is nil.
- Concurrent runs sharing a staging directory are out of scope.
- Removal of the recorded garbage: the source never removes it.
