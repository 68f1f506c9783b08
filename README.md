# Markdown blog: post loading, sorting, caching and lookup

This project models the post pipeline of a small Rust blog server
(`src/main.rs`), and proves properties about it.

The pipeline has five parts:

- `parse_post` cuts a Markdown file at its first two `---` delimiters into
  a preamble (dropped), a YAML front-matter block and a body. It trims the
  body and decodes the front matter. It renders the body to HTML and takes
  the file stem as the post's slug.
- `main` walks the `content` directory. It keeps the entries whose
  extension is `md` and parses each one. Files that fail to parse are
  skipped; the rest are pushed onto a vector in scan order.
- `main` then sorts that vector in place, newest date first, comparing the
  date strings lexicographically.
- `start_server` inserts the posts one after another into a slug-keyed
  `HashMap`. A later insert with the same slug overwrites an earlier one.
- `post_detail` looks a slug up in that map and either renders the post or
  answers 404. `home` lists the map's values, sorted newest first again.

Modules, one per concern:

| file | module | models |
|---|---|---|
| `wrappers.dfy` | `Wrappers` | Rust's `Option` |
| `seqs.dfy` | `Seqs` | small facts about slicing sequences, shared by the proofs |
| `text.dfy` | `Text` | `str::trim` (Unicode `White_Space`, as `char::is_whitespace`) and `Ord for str` |
| `split.dfy` | `Split` | `str::find` and `str::splitn` with a string pattern; the `splitn(3, _)` case exactly |
| `paths.dfy` | `Paths` | `Path::file_name`, `Path::file_stem`, `Path::extension` on Unix path strings |
| `post.dfy` | `Post` | the `FrontMatter` and `Post` records and `parse_post` |
| `order.dfy` | `DateOrder` | the date comparator, the stable sort it drives, and an in-place insertion sort on an array |
| `load.dfy` | `Load` | the directory loop of `main` and the sort after it |
| `cache.dfy` | `Cache` | the cache loop of `start_server`, the `post_detail` lookup and the `home` listing |
| `server.dfy` | `Server` | `main` followed by `start_server`, end to end |

The outside world enters as parameters:

- What `fs::read_dir` yields is an `Option<seq<Option<DirEntry>>>`. `None`
  means the directory could not be read. A `None` entry is an entry error,
  which `flatten` drops.
- Each `DirEntry` carries its path and what `fs::read_to_string` returns
  for it (`None` on failure).
- `serde_yaml::from_str` is a function `string -> Option<FrontMatter>`.
- `pulldown_cmark`'s `push_html` is a total function `string -> string`,
  since it cannot fail.

Three consequences of the code are worth stating:

- `sort_by` has no tie-break. Posts with equal dates keep their scan
  order, because `sort_by` is stable.
- The cache is built from the sorted vector. When two posts share a slug,
  the one that comes last in newest-first order wins. Posts loaded from
  one directory cannot share a slug, though, because every loaded file
  is named `<slug>.md`, and the model proves this.
- `push_html` cannot fail, so rendering never makes a file be skipped.

## Model

| member | source | states |
|---|---|---|
| `Split.FindFrom` | src/main.rs:28 | the search `StrSearcher` runs from a position: a match it reports lies within the text at or after that position; `Split.FindFromSpec` shows it is the leftmost one |
| `Split.Find` | src/main.rs:28 | `str::find` with a string pattern: the search from the start of the text; `Split.FindFromSpec` specifies it |
| `Split.SplitFrom` | src/main.rs:28 | the `splitn` iterator from a given position: a piece up to each next occurrence, with the rest as the last piece once `n` is reached; `Split.SplitNJoin`, `Split.SplitNPieces` and `Split.SplitThree` specify it |
| `Split.SplitN` | src/main.rs:28 | `splitn(n, pat)` collected into a vector; specified by `Split.SplitNJoin` (round trip through `Join`), `Split.SplitNPieces` and, for `n = 3`, `Split.SplitThree` and `Split.SplitThreeCount` |
| `Split.FindFromSpec` | src/main.rs:28 | the search returns the leftmost occurrence of the pattern at or after the start, and `None` only when there is none |
| `Split.SplitNJoin` | src/main.rs:28 | `splitn(n, pat)` yields between 1 and `n` pieces, and joining them with `pat` gives the input back exactly |
| `Split.SplitNPieces` | src/main.rs:28 | every piece but the last is free of the pattern, and so is the last when fewer than `n` pieces came out |
| `Split.SplitThree` | src/main.rs:28 | `splitn(3, pat)` is `[s]` with no occurrence; it is before/after the first occurrence with one; with two it is the text before the first, the text between the first two, and everything after the second (later occurrences included) |
| `Split.SplitThreeCount` | src/main.rs:28-29 | there are three pieces exactly when the text holds two non-overlapping occurrences of the pattern |
| `Text.Trim` | src/main.rs:33 | `str::trim`, the end trimmed after the start; `Text.TrimSlice` and `Text.TrimUnique` together pin it down completely, and `Text.TrimIdempotent` follows |
| `Text.TrimStartSpec` | src/main.rs:33 | trimming the start leaves a suffix of the input, what was cut is all whitespace, and the result does not start with whitespace |
| `Text.TrimEndSpec` | src/main.rs:33 | trimming the end leaves a prefix of the input, what was cut is all whitespace, and the result does not end with whitespace |
| `Text.TrimTrimmed` | src/main.rs:33 | the trimmed body has no whitespace at either end |
| `Text.TrimSlice` | src/main.rs:33 | the trimmed text is a contiguous slice of the input with only whitespace cut from either side |
| `Text.TrimUnique` | src/main.rs:33 | whitespace, then a trimmed middle, then whitespace, trims to exactly that middle |
| `Text.TrimIdempotent` | src/main.rs:33 | trimming twice is trimming once |
| `Text.LexLessAsymmetric` | src/main.rs:65 | the date comparison is asymmetric |
| `Text.LexLessTransitive` | src/main.rs:65 | the date comparison is transitive |
| `Text.LexLessTotal` | src/main.rs:65 | any two distinct date strings are ordered one way or the other |
| `Paths.SplitAtDot` | src/main.rs:38 | `rsplit_file_at_dot`: the parts of a file name before and after its last dot; `Paths.StemAndExtension` states how they recompose the name |
| `Paths.FileStem` | src/main.rs:38 | `Path::file_stem`, which gives the slug; specified by `Paths.StemAndExtension` and `Paths.StemOfJoin` |
| `Paths.Extension` | src/main.rs:55 | `Path::extension`, which the loop tests against `md`; specified by `Paths.StemAndExtension` and `Paths.StemOfJoin` |
| `Paths.FileName` | src/main.rs:38 | a file name, when there is one, is a single normal path component (not empty, no `/`, not `.` or `..`) |
| `Paths.LastDot` | src/main.rs:38 | finds the last `.` of a file name, or reports that it has none |
| `Paths.StemAndExtension` | src/main.rs:38 | a path has a stem exactly when it has a file name; the stem is non-empty; the name is the stem, or the stem, a dot and a dot-free extension |
| `Paths.FileNameOfJoin` | src/main.rs:54 | a directory joined with an entry name has that name as its file name |
| `Paths.StemOfJoin` | src/main.rs:54-55 | `dir/stem.ext` has stem `stem` and extension `ext`, so `content/hello.md` has slug `hello` and is a Markdown file |
| `Post.ParsePost` | src/main.rs:26-45 | `parse_post`; `Post.ParsePostSucceeds` says exactly when it succeeds and `Post.ParsePostFields`, `Post.ParsePostContent` and `Post.ParsePostSlug` what the post then holds |
| `Post.SplitOfPost` | src/main.rs:28-33 | a file splits into three pieces exactly when it holds two delimiters, and the pieces are preamble, front matter and body at the first two delimiters |
| `Post.RejectsWithoutTwoDelimiters` | src/main.rs:28-31 | a text without two non-overlapping `---` is rejected, whatever the decoder and renderer do |
| `Post.ParsePostSucceeds` | src/main.rs:26-45 | `parse_post` succeeds exactly when the file was read, holds two delimiters, the text between the first two decodes, and the path has a file stem |
| `Post.ParsePostFields` | src/main.rs:32-44 | a parsed post holds the front matter decoded from between the first two delimiters, the trimmed text after the second as content, that content's rendering as html, and the file stem as slug |
| `Post.ParsePostContent` | src/main.rs:33 | a parsed post's content has no whitespace at either end and is a contiguous slice of the text after the second delimiter |
| `Post.ParsePostSlug` | src/main.rs:38 | a parsed post's slug is its file's stem |
| `DateOrder.Newer` | src/main.rs:65 | the comparator `b.frontmatter.date.cmp(&a.frontmatter.date)` puts `a` first when its date is strictly greater; it is a strict order by `Text.LexLessAsymmetric`, `Text.LexLessTransitive` and `Text.LexLessTotal` |
| `DateOrder.Insert` | src/main.rs:65 | inserting a post adds exactly that post, and the result starts with it or with the old first post |
| `DateOrder.InsertOrdered` | src/main.rs:65 | inserting into a newest-first sequence keeps it newest first |
| `DateOrder.SortByDate` | src/main.rs:65 | the sorted posts are in newest-first order and are a permutation of the input |
| `DateOrder.SortByDateStable` | src/main.rs:65 | for every date, the posts with that date come out in their input order (stability) |
| `DateOrder.StableSortUnique` | src/main.rs:65 | `SortByDate` is the one and only newest-first arrangement that keeps equal dates in input order, so any stable sort with this comparator gives the same vector |
| `DateOrder.NewestFirstPairwise` | src/main.rs:65 | in a newest-first sequence every earlier post is not older than every later one |
| `DateOrder.SortDistinct` | src/main.rs:65 | sorting keeps slugs distinct |
| `DateOrder.InsertFromRightOrdered` | src/main.rs:65 | walking a post leftwards past strictly older posts keeps newest-first order |
| `DateOrder.InsertFromRightWithDate` | src/main.rs:65 | that walk puts the post behind every post of its own date |
| `DateOrder.SortByDateSnoc` | src/main.rs:65 | sorting a vector with one more post at the back is that walk applied to the sorted rest |
| `DateOrder.InsertPass` | src/main.rs:65 | one insertion-sort pass over the array leaves the prefix as the walk of the next post into it, and the rest of the array unchanged |
| `DateOrder.SortInPlace` | src/main.rs:65 | sorting the array in place leaves exactly `SortByDate` of its old contents |
| `Load.IsMarkdown` | src/main.rs:55 | the extension test `path.extension() == Some("md")`; `Paths.StemOfJoin` shows that `dir/stem.md` passes it |
| `Load.FromEntry` | src/main.rs:53-60 | what one loop iteration pushes; `Load.FromEntryYields` says it is at most one post, and which |
| `Load.Loaded` | src/main.rs:53-61 | what the loop has pushed after a prefix of the listing; specified by `Load.LoadedAppend`, `Load.LoadedAround` and `Load.LoadedMembers` |
| `Load.Startup` | src/main.rs:51-67 | the vector `main` hands to `start_server`; `Load.LoadPosts` computes it and `Server.ServedPosts` says what it serves |
| `Load.ScanDirectory` | src/main.rs:51-62 | an unreadable directory yields no posts; otherwise the loop yields the posts of the listing's Markdown entries that parse, in scan order |
| `Load.LoadPosts` | src/main.rs:51-65 | the vector handed to the server is the scanned posts sorted newest first |
| `Load.LoadedAppend` | src/main.rs:53-61 | loading a listing in two parts is loading each part and concatenating |
| `Load.LoadedAround` | src/main.rs:53-61 | each entry contributes its own post or nothing, between the posts of the entries before and after it: a failing file never stops later files from loading |
| `Load.FromEntryYields` | src/main.rs:53-61 | one iteration pushes at most one post, and pushes `p` exactly when the entry is listed, is Markdown and parses to `p` |
| `Load.LoadedMembers` | src/main.rs:53-61 | the loaded posts are exactly those of entries that are listed, are Markdown and parse |
| `Load.YieldedName` | src/main.rs:55 | a loaded post comes from a file named its slug followed by `.md` |
| `Load.LoadedSlugsDistinct` | src/main.rs:53-58 | posts loaded from one directory, whose entries have distinct names, never share a slug |
| `Cache.CacheOf` | src/main.rs:73-76 | the map after inserting each post under its slug in turn; `Cache.CacheOfContents` gives its keys, its values and the last-writer rule |
| `Cache.PostDetail` | src/main.rs:129-145 | `post_detail`'s choice between rendering the post stored at the slug and answering 404; `Cache.LookupInCache` and `Cache.LookupDistinct` specify it on a built cache |
| `Cache.HomeListing` | src/main.rs:105-106 | the posts `home` renders, the map's values sorted newest first; specified by `Cache.HomeListingContents` and `Cache.HomeOrderIndependent` |
| `Cache.CacheOfContents` | src/main.rs:73-76 | the cache's keys are exactly the loaded slugs, every key maps to a post with that slug, and that post is the last one in the vector to carry it |
| `Cache.BuildCache` | src/main.rs:73-76 | the insert loop builds exactly that cache |
| `Cache.LookupInCache` | src/main.rs:127-145 | a lookup answers not-found exactly when no post has the slug, and otherwise the last post in the vector with it |
| `Cache.LookupDistinct` | src/main.rs:129 | with distinct slugs, every post is served at its own slug |
| `Cache.Values` | src/main.rs:105 | the collected values are the cached posts, in the order the map yields their keys |
| `Cache.HomeListingContents` | src/main.rs:105-106 | the home page lists every cached post once, newest first, equal dates in map iteration order |
| `Cache.HomeOrderIndependent` | src/main.rs:105-106 | when no two cached posts share a date, the home listing does not depend on the map's iteration order |
| `Server.Start` | src/main.rs:47-76 | the server's cache is built from the loaded posts sorted newest first |
| `Server.ServedPosts` | src/main.rs:52-76 | every post loaded from a readable directory is served at its slug, a slug no loaded post carries gets not-found, and an unreadable directory serves nothing |

## Left out

- File I/O (`fs::read_dir`, `fs::read_to_string`) is not modelled. The listing and each file's contents are inputs, as described above.
- YAML decoding (`serde_yaml::from_str`) and Markdown rendering (`pulldown_cmark`) are not modelled. They are function parameters, so every property holds for any decoder and any renderer.
- The web layer is not modelled: the actix-web server, routing, static files, Tera templates, the hand-built fallback HTML strings and the `println!` logging. `post_detail` is modelled only as the choice between rendering a post and answering 404.
- `HashMap` iteration order is unspecified in Rust. `home`'s listing therefore takes it as an input, a sequence of the map's keys.
- `sort_by` is Rust's library sort; its merge-based algorithm is not modelled. The model sorts with an insertion sort. `DateOrder.StableSortUnique` shows that every stable sort with this comparator gives the same result.
- Paths are Unix path strings. Windows prefixes and non-UTF-8 file names (which `to_string_lossy` would alter) are not modelled.
- Strings are sequences of code points. Rust compares `str` by UTF-8 bytes, which orders strings the same way.
