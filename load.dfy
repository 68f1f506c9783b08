/**
 * The load loop of `main`: walk the entries of the content directory,
 * keep the files whose extension is `md`, parse each, and push the posts
 * that parse onto a vector; then sort the vector newest first.
 *
 * `fs::read_dir` is an input: `None` when the directory cannot be read,
 * otherwise its entries in the order the operating system yields them,
 * `None` standing for an entry that failed (dropped by `flatten`). Each
 * entry carries its path and what reading that file returns.
 */
module Load {
  import opened Wrappers
  import opened Paths
  import opened Post
  import opened DateOrder
  import opened Seqs

  datatype DirEntry = DirEntry(path: string, contents: Option<string>)

  /** `path.extension().map(|e| e == "md").unwrap_or(false)` */
  predicate IsMarkdown(path: string) {
    Extension(path) == Some("md")
  }

  /** The post an entry yields: it was listed, is Markdown, and parses. */
  predicate Yields(e: Option<DirEntry>, p: Post,
                   decodeYaml: string -> Option<FrontMatter>,
                   renderHtml: string -> string)
  {
    && e.Some?
    && IsMarkdown(e.value.path)
    && ParsePost(e.value.path, e.value.contents, decodeYaml, renderHtml) == Some(p)
  }

  /** What one loop iteration pushes: the entry's post, or nothing. */
  function FromEntry(e: Option<DirEntry>,
                     decodeYaml: string -> Option<FrontMatter>,
                     renderHtml: string -> string): (r: seq<Post>)
  {
    match e
    case None => []
    case Some(entry) =>
      if !IsMarkdown(entry.path) then []
      else
        match ParsePost(entry.path, entry.contents, decodeYaml, renderHtml)
        case None => []
        case Some(post) => [post]
  }

  /** The posts the loop has pushed after the entries `entries`. */
  function Loaded(entries: seq<Option<DirEntry>>,
                  decodeYaml: string -> Option<FrontMatter>,
                  renderHtml: string -> string): seq<Post>
    decreases |entries|
  {
    if entries == [] then []
    else
      Loaded(entries[..|entries| - 1], decodeYaml, renderHtml)
        + FromEntry(entries[|entries| - 1], decodeYaml, renderHtml)
  }

  /** The loop over the directory listing, in the source's own form. */
  method ScanDirectory(listing: Option<seq<Option<DirEntry>>>,
                       decodeYaml: string -> Option<FrontMatter>,
                       renderHtml: string -> string)
    returns (posts: seq<Post>)
    ensures listing.None? ==> posts == []
    ensures listing.Some? ==> posts == Loaded(listing.value, decodeYaml, renderHtml)
  {
    posts := [];
    if listing.Some? {
      var entries := listing.value;
      for i := 0 to |entries|
        invariant posts == Loaded(entries[..i], decodeYaml, renderHtml)
      {
        assert entries[..i + 1][..i] == entries[..i];
        match entries[i]
        case None =>
        case Some(entry) =>
          if IsMarkdown(entry.path) {
            var post := ParsePost(entry.path, entry.contents, decodeYaml, renderHtml);
            if post.Some? {
              posts := posts + [post.value];
            }
          }
      }
      assert entries[..|entries|] == entries;
    }
  }

  /**
   * The posts `main` hands to `start_server`: those the directory loop
   * pushed (none when the directory cannot be read), sorted newest first.
   */
  function Startup(listing: Option<seq<Option<DirEntry>>>,
                   decodeYaml: string -> Option<FrontMatter>,
                   renderHtml: string -> string): seq<Post>
  {
    SortByDate(if listing.None? then [] else Loaded(listing.value, decodeYaml, renderHtml))
  }

  /** `main` up to `start_server`: scan, then sort newest first. */
  method LoadPosts(listing: Option<seq<Option<DirEntry>>>,
                   decodeYaml: string -> Option<FrontMatter>,
                   renderHtml: string -> string)
    returns (posts: seq<Post>)
    ensures posts == Startup(listing, decodeYaml, renderHtml)
    ensures NewestFirst(posts)
  {
    var scanned := ScanDirectory(listing, decodeYaml, renderHtml);
    var vec := new Post[|scanned|](k requires 0 <= k < |scanned| => scanned[k]);
    assert vec[..] == scanned;
    SortInPlace(vec);
    posts := vec[..];
  }

  lemma {:induction false} LoadedAppend(a: seq<Option<DirEntry>>, b: seq<Option<DirEntry>>,
                                        decodeYaml: string -> Option<FrontMatter>,
                                        renderHtml: string -> string)
    ensures Loaded(a + b, decodeYaml, renderHtml) == Loaded(a, decodeYaml, renderHtml) + Loaded(b, decodeYaml, renderHtml)
    decreases |b|
  {
    if b == [] {
      assert a + b == a;
    } else {
      var b' := b[..|b| - 1];
      assert (a + b)[..|a + b| - 1] == a + b';
      assert (a + b)[|a + b| - 1] == b[|b| - 1];
      LoadedAppend(a, b', decodeYaml, renderHtml);
    }
  }

  lemma LoadedSingle(e: Option<DirEntry>,
                     decodeYaml: string -> Option<FrontMatter>,
                     renderHtml: string -> string)
    ensures Loaded([e], decodeYaml, renderHtml) == FromEntry(e, decodeYaml, renderHtml)
  {
    assert [e][..0] == [];
  }

  lemma LoadedSplit(before: seq<Option<DirEntry>>, e: Option<DirEntry>, after: seq<Option<DirEntry>>,
                    decodeYaml: string -> Option<FrontMatter>,
                    renderHtml: string -> string)
    ensures Loaded(before + [e] + after, decodeYaml, renderHtml) ==
      Loaded(before, decodeYaml, renderHtml)
        + FromEntry(e, decodeYaml, renderHtml)
        + Loaded(after, decodeYaml, renderHtml)
  {
    LoadedAppend(before + [e], after, decodeYaml, renderHtml);
    LoadedAppend(before, [e], decodeYaml, renderHtml);
    LoadedSingle(e, decodeYaml, renderHtml);
  }

  /**
   * Skip, not abort, in scan order: every entry contributes its own post
   * or nothing, between what the entries before it and after it load.
   */
  lemma LoadedAround(entries: seq<Option<DirEntry>>, k: nat,
                     decodeYaml: string -> Option<FrontMatter>,
                     renderHtml: string -> string)
    requires k < |entries|
    ensures Loaded(entries, decodeYaml, renderHtml) ==
      Loaded(entries[..k], decodeYaml, renderHtml)
        + FromEntry(entries[k], decodeYaml, renderHtml)
        + Loaded(entries[k + 1..], decodeYaml, renderHtml)
  {
    SplitAt(entries, k);
    LoadedSplit(entries[..k], entries[k], entries[k + 1..], decodeYaml, renderHtml);
  }

  /** An iteration pushes exactly the post its entry yields. */
  lemma FromEntryYields(e: Option<DirEntry>, p: Post,
                        decodeYaml: string -> Option<FrontMatter>,
                        renderHtml: string -> string)
    ensures |FromEntry(e, decodeYaml, renderHtml)| <= 1
    ensures p in FromEntry(e, decodeYaml, renderHtml) <==> Yields(e, p, decodeYaml, renderHtml)
  {
  }

  /** The entry a loaded post comes from. */
  lemma {:induction false} SourceEntry(entries: seq<Option<DirEntry>>, p: Post,
                                       decodeYaml: string -> Option<FrontMatter>,
                                       renderHtml: string -> string)
    returns (i: nat)
    requires p in Loaded(entries, decodeYaml, renderHtml)
    ensures i < |entries| && p in FromEntry(entries[i], decodeYaml, renderHtml)
    decreases |entries|
  {
    var n := |entries| - 1;
    var init := entries[..n];
    if p in Loaded(init, decodeYaml, renderHtml) {
      i := SourceEntry(init, p, decodeYaml, renderHtml);
      assert entries[i] == init[i];
    } else {
      i := n;
    }
  }

  lemma LoadedFromEntries(entries: seq<Option<DirEntry>>, p: Post,
                          decodeYaml: string -> Option<FrontMatter>,
                          renderHtml: string -> string)
    ensures p in Loaded(entries, decodeYaml, renderHtml) <==>
      exists i :: 0 <= i < |entries| && p in FromEntry(entries[i], decodeYaml, renderHtml)
  {
    if p in Loaded(entries, decodeYaml, renderHtml) {
      var i := SourceEntry(entries, p, decodeYaml, renderHtml);
    }
    if exists i :: 0 <= i < |entries| && p in FromEntry(entries[i], decodeYaml, renderHtml) {
      var i :| 0 <= i < |entries| && p in FromEntry(entries[i], decodeYaml, renderHtml);
      LoadedAround(entries, i, decodeYaml, renderHtml);
    }
  }

  /**
   * The loaded posts are exactly those yielded by entries that are listed,
   * are Markdown and parse.
   */
  lemma LoadedMembers(entries: seq<Option<DirEntry>>, p: Post,
                      decodeYaml: string -> Option<FrontMatter>,
                      renderHtml: string -> string)
    ensures p in Loaded(entries, decodeYaml, renderHtml) <==>
      exists i :: 0 <= i < |entries| && Yields(entries[i], p, decodeYaml, renderHtml)
  {
    LoadedFromEntries(entries, p, decodeYaml, renderHtml);
    forall i | 0 <= i < |entries|
      ensures p in FromEntry(entries[i], decodeYaml, renderHtml) <==> Yields(entries[i], p, decodeYaml, renderHtml)
    {
      FromEntryYields(entries[i], p, decodeYaml, renderHtml);
    }
  }

  lemma YieldedStem(e: Option<DirEntry>, p: Post,
                    decodeYaml: string -> Option<FrontMatter>,
                    renderHtml: string -> string)
    requires Yields(e, p, decodeYaml, renderHtml)
    ensures FileStem(e.value.path) == Some(p.slug) && Extension(e.value.path) == Some("md")
  {
    ParsePostSlug(e.value.path, e.value.contents, decodeYaml, renderHtml);
  }

  lemma MarkdownName(path: string, slug: string)
    requires FileStem(path) == Some(slug) && Extension(path) == Some("md")
    ensures FileName(path) == Some(slug + ".md")
  {
    NameOfStemAndExtension(path, slug, "md");
    assert slug + "." + "md" == slug + ".md";
  }

  /**
   * A Markdown file's post has the file name's stem as slug, so the file
   * name is the slug followed by `.md`.
   */
  lemma YieldedName(e: Option<DirEntry>, p: Post,
                    decodeYaml: string -> Option<FrontMatter>,
                    renderHtml: string -> string)
    requires Yields(e, p, decodeYaml, renderHtml)
    ensures FileName(e.value.path) == Some(p.slug + ".md")
  {
    YieldedStem(e, p, decodeYaml, renderHtml);
    MarkdownName(e.value.path, p.slug);
  }

  /** The entries of one directory have distinct file names. */
  predicate DistinctNames(entries: seq<Option<DirEntry>>) {
    forall i, j :: 0 <= i < j < |entries| && entries[i].Some? && entries[j].Some? ==>
      FileName(entries[i].value.path) != FileName(entries[j].value.path)
  }

  lemma SlugsFromNames(e: Option<DirEntry>, f: Option<DirEntry>, p: Post, q: Post,
                       decodeYaml: string -> Option<FrontMatter>,
                       renderHtml: string -> string)
    requires Yields(e, p, decodeYaml, renderHtml) && Yields(f, q, decodeYaml, renderHtml)
    requires FileName(e.value.path) != FileName(f.value.path)
    ensures p.slug != q.slug
  {
    YieldedName(e, p, decodeYaml, renderHtml);
    YieldedName(f, q, decodeYaml, renderHtml);
  }

  /** Posts loaded from one directory never share a slug. */
  lemma {:induction false} LoadedSlugsDistinct(entries: seq<Option<DirEntry>>,
                                               decodeYaml: string -> Option<FrontMatter>,
                                               renderHtml: string -> string)
    requires DistinctNames(entries)
    ensures DistinctSlugs(Loaded(entries, decodeYaml, renderHtml))
    decreases |entries|
  {
    if entries != [] {
      var n := |entries| - 1;
      var init := entries[..n];
      assert DistinctNames(init) by {
        forall i, j | 0 <= i < j < |init| && init[i].Some? && init[j].Some?
          ensures FileName(init[i].value.path) != FileName(init[j].value.path)
        {
          assert init[i] == entries[i] && init[j] == entries[j];
        }
      }
      LoadedSlugsDistinct(init, decodeYaml, renderHtml);
      var before := Loaded(init, decodeYaml, renderHtml);
      var last := FromEntry(entries[n], decodeYaml, renderHtml);
      if last != [] {
        var p := last[0];
        forall q | q in before ensures q.slug != p.slug {
          LoadedMembers(init, q, decodeYaml, renderHtml);
          var i :| 0 <= i < |init| && Yields(init[i], q, decodeYaml, renderHtml);
          assert init[i] == entries[i];
          SlugsFromNames(entries[i], entries[n], q, p, decodeYaml, renderHtml);
        }
        assert Loaded(entries, decodeYaml, renderHtml) == before + [p];
      }
    }
  }
}
